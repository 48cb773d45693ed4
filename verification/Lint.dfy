/** The scanners under the seed linter (crates/solinv-static/src/lint.rs): partners of brackets,
    splitting on commas, and the names a bump is looked up through. Text is Rust's, with character
    literals only of characters that mean nothing to the scanners, but where they are named. */
module Lint {
  import opened Common
  import opened Trimming

  datatype Kind = Round | Square | Curly

  function Open(k: Kind): char { match k case Round => '(' case Square => '[' case Curly => '{' }

  function Close(k: Kind): char { match k case Round => ')' case Square => ']' case Curly => '}' }

  predicate Opens(c: char) { c == '(' || c == '[' || c == '{' }

  predicate Closes(c: char) { c == ')' || c == ']' || c == '}' }

  type PlainChar = c: char | !Opens(c) && !Closes(c) && c != '"' witness 'a'

  type InnerChar = c: char | c != '"' && c != '\\' witness 'a'

  /** Well-nested text: characters, string literals with their escapes, and bracketed groups. */
  datatype Piece = Plain(c: PlainChar) | Str(body: seq<Mark>) | Group(kind: Kind, inside: seq<Piece>)

  datatype Mark = Inner(c: InnerChar) | Escape(e: char)

  function MarksText(body: seq<Mark>): string {
    if body == [] then ""
    else MarkText(body[0]) + MarksText(body[1..])
  }

  function MarkText(m: Mark): string { match m case Inner(c) => [c] case Escape(e) => ['\\', e] }

  function Text(p: Piece): string
    decreases p
  {
    match p
    case Plain(c) => [c]
    case Str(body) => "\"" + MarksText(body) + "\""
    case Group(k, inside) => [Open(k)] + Texts(inside) + [Close(k)]
  }

  function Texts(ps: seq<Piece>): string
    decreases ps
  {
    if ps == [] then "" else Text(ps[0]) + Texts(ps[1..])
  }

  // ---- the partner of a bracket

  /** The scan from `i` for the `c` that closes the `o` that `depth` counts. */
  function Scan(s: string, o: char, c: char, i: nat, depth: int, inStr: bool): Option<nat>
    decreases |s| - i
  {
    if i >= |s| then None
    else if inStr then
      if s[i] == '\\' then Scan(s, o, c, i + 2, depth, true) else Scan(s, o, c, i + 1, depth, s[i] != '"')
    else if s[i] == '"' then Scan(s, o, c, i + 1, depth, true)
    else if s[i] == o then Scan(s, o, c, i + 1, depth + 1, false)
    else if s[i] == c then
      if depth == 1 then Some(i) else Scan(s, o, c, i + 1, depth - 1, false)
    else Scan(s, o, c, i + 1, depth, false)
  }

  function KindAt(s: string, open: nat): Option<Kind> {
    if open >= |s| then None
    else match s[open] case '(' => Some(Round) case '[' => Some(Square) case '{' => Some(Curly) case _ => None
  }

  function Partner(s: string, open: nat): Option<nat> {
    var k := KindAt(s, open);
    if k.None? then None else Scan(s, Open(k.value), Close(k.value), open, 0, false)
  }

  method Matching(s: string, open: nat) returns (r: Option<nat>)
    ensures r == Partner(s, open)
  {
    var k := KindAt(s, open);
    if k.None? {
      return None;
    }
    var o, c := Open(k.value), Close(k.value);
    var depth, i, inStr := 0, open, false;
    while i < |s|
      invariant Scan(s, o, c, i, depth, inStr) == Partner(s, open)
    {
      var ch := s[i];
      if inStr {
        if ch == '\\' {
          i := i + 1;
        } else if ch == '"' {
          inStr := false;
        }
      } else if ch == '"' {
        inStr := true;
      } else if ch == o {
        depth := depth + 1;
      } else if ch == c {
        depth := depth - 1;
        if depth == 0 {
          return Some(i);
        }
      }
      i := i + 1;
    }
    r := None;
  }

  /** `part` stands in `s` at `i`. */
  predicate At(s: string, i: nat, part: string) { i + |part| <= |s| && s[i..i + |part|] == part }

  lemma AtSplit(s: string, i: nat, a: string, b: string)
    requires At(s, i, a + b)
    ensures At(s, i, a) && At(s, i + |a|, b)
  {
    assert a == (a + b)[..|a|] && b == (a + b)[|a|..];
  }

  lemma AtMiddle(before: string, part: string, after: string)
    ensures At(before + part + after, |before|, part)
  {
  }

  lemma MarkAt(s: string, i: nat, body: seq<Mark>)
    requires body != [] && At(s, i, MarksText(body))
    ensures var first := MarkText(body[0]); var j := i + |first|;
            && At(s, j, MarksText(body[1..])) && j <= |s|
            && s[i] == first[0] && (body[0].Escape? ==> s[i + 1] == first[1])
  {
    AtSplit(s, i, MarkText(body[0]), MarksText(body[1..]));
    assert s[i..i + |MarkText(body[0])|] == MarkText(body[0]);
  }

  lemma PlainAt(s: string, i: nat, c: PlainChar)
    requires At(s, i, Text(Plain(c)))
    ensures i < |s| && s[i] == c
  {
    assert s[i..i + 1][0] == c;
  }

  lemma StrAt(s: string, i: nat, body: seq<Mark>)
    requires At(s, i, Text(Str(body)))
    ensures var j := i + 1 + |MarksText(body)|; j < |s| && s[i] == '"' && s[j] == '"' && At(s, i + 1, MarksText(body))
  {
    AtSplit(s, i, "\"" + MarksText(body), "\"");
    AtSplit(s, i, "\"", MarksText(body));
    var j := i + 1 + |MarksText(body)|;
    assert s[i..i + 1][0] == '"' && s[j..j + 1][0] == '"';
  }

  lemma {:induction false} ScanString(s: string, o: char, c: char, i: nat, depth: int, body: seq<Mark>)
    requires At(s, i, MarksText(body))
    ensures Scan(s, o, c, i, depth, true) == Scan(s, o, c, i + |MarksText(body)|, depth, true)
    decreases body
  {
    if body != [] {
      var first := MarkText(body[0]);
      MarkAt(s, i, body);
      ScanString(s, o, c, i + |first|, depth, body[1..]);
    }
  }

  lemma ScanStr(s: string, o: char, c: char, i: nat, depth: int, body: seq<Mark>)
    requires At(s, i, Text(Str(body))) && o != '"' && c != '"'
    ensures Scan(s, o, c, i, depth, false) == Scan(s, o, c, i + |Text(Str(body))|, depth, false)
  {
    StrAt(s, i, body);
    ScanString(s, o, c, i + 1, depth, body);
  }

  /** The brackets of a group inside are met in turn and leave `depth` as it was. */
  lemma ScanEnds(s: string, k: Kind, i: nat, j: nat, depth: int, g: Kind)
    requires i < j < |s| && s[i] == Open(g) && s[j] == Close(g) && depth >= 1
    ensures var d := if g == k then depth + 1 else depth;
            && Scan(s, Open(k), Close(k), i, depth, false) == Scan(s, Open(k), Close(k), i + 1, d, false)
            && Scan(s, Open(k), Close(k), j, d, false) == Scan(s, Open(k), Close(k), j + 1, depth, false)
  {
  }

  lemma GroupAt(s: string, i: nat, g: Kind, inside: seq<Piece>)
    requires At(s, i, Text(Group(g, inside)))
    ensures var j := i + 1 + |Texts(inside)|;
            j < |s| && s[i] == Open(g) && s[j] == Close(g) && At(s, i + 1, Texts(inside))
  {
    AtSplit(s, i, [Open(g)] + Texts(inside), [Close(g)]);
    AtSplit(s, i, [Open(g)], Texts(inside));
    assert s[i..i + 1][0] == Open(g);
    assert s[i + 1 + |Texts(inside)|..][0] == Close(g);
  }

  lemma {:induction false} ScanPiece(s: string, k: Kind, i: nat, depth: int, p: Piece)
    requires At(s, i, Text(p)) && depth >= 1
    ensures Scan(s, Open(k), Close(k), i, depth, false) == Scan(s, Open(k), Close(k), i + |Text(p)|, depth, false)
    decreases p
  {
    hide At;
    match p
    case Plain(c) => PlainAt(s, i, c);
    case Str(body) => ScanStr(s, Open(k), Close(k), i, depth, body);
    case Group(g, inside) =>
      GroupAt(s, i, g, inside);
      ScanEnds(s, k, i, i + 1 + |Texts(inside)|, depth, g);
      ScanPieces(s, k, i + 1, if g == k then depth + 1 else depth, inside);
  }

  lemma {:induction false} ScanPieces(s: string, k: Kind, i: nat, depth: int, ps: seq<Piece>)
    requires At(s, i, Texts(ps)) && depth >= 1
    ensures Scan(s, Open(k), Close(k), i, depth, false) == Scan(s, Open(k), Close(k), i + |Texts(ps)|, depth, false)
    decreases ps
  {
    hide At;
    if ps != [] {
      AtSplit(s, i, Text(ps[0]), Texts(ps[1..]));
      ScanPiece(s, k, i, depth, ps[0]);
      ScanPieces(s, k, i + |Text(ps[0])|, depth, ps[1..]);
    }
  }

  /** Counting one kind of bracket and skipping strings finds the true partner: of a group, its own
      closing bracket, whatever stands before and after it. */
  lemma PartnerOfGroup(before: string, k: Kind, inside: seq<Piece>, after: string)
    ensures Partner(before + Text(Group(k, inside)) + after, |before|) == Some(|before| + 1 + |Texts(inside)|)
  {
    var s := before + Text(Group(k, inside)) + after;
    var i := |before|;
    assert At(s, i, Text(Group(k, inside)));
    GroupAt(s, i, k, inside);
    ScanPieces(s, k, i + 1, 1, inside);
  }

  lemma ScanFrom(s: string, o: char, c: char, i: nat, depth: int, inStr: bool)
    ensures Scan(s, o, c, i, depth, inStr).Some? ==> Scan(s, o, c, i, depth, inStr).value >= i
    decreases |s| - i
  {
  }

  /** Inside a string that no `"` ends before `j`, the scan stops nowhere up to `j`. */
  lemma {:induction false} ScanPast(s: string, o: char, c: char, i: nat, depth: int, j: nat)
    requires j < |s| && forall q :: i <= q <= j ==> s[q] != '"'
    ensures Scan(s, o, c, i, depth, true).Some? ==> Scan(s, o, c, i, depth, true).value > j
    decreases |s| - i
  {
    if i > j {
      ScanFrom(s, o, c, i, depth, true);
    } else {
      ScanPast(s, o, c, if s[i] == '\\' then i + 2 else i + 1, depth, j);
    }
  }

  lemma PartnerFrom(s: string, i: nat, k: Kind)
    requires i < |s| && s[i] == Open(k)
    ensures Partner(s, i) == Scan(s, Open(k), Close(k), i + 1, 1, false)
  {
  }

  /** A group of `k` with the one character `c` between what is well nested. */
  function Broken(k: Kind, left: seq<Piece>, c: char, right: seq<Piece>): string {
    [Open(k)] + Texts(left) + [c] + Texts(right) + [Close(k)]
  }

  lemma CharAt(s: string, i: nat, c: char)
    requires At(s, i, [c])
    ensures i < |s| && s[i] == c
  {
    assert s[i..i + 1][0] == c;
  }

  lemma {:induction false} BrokenAt(s: string, i: nat, k: Kind, left: seq<Piece>, c: char, right: seq<Piece>)
    requires At(s, i, Broken(k, left, c, right))
    ensures var p := i + 1 + |Texts(left)|; var j := p + 1 + |Texts(right)|;
            && j < |s| && s[i] == Open(k) && s[p] == c && s[j] == Close(k)
            && At(s, i + 1, Texts(left)) && At(s, p + 1, Texts(right))
  {
    var l, r := Texts(left), Texts(right);
    hide At;
    AtSplit(s, i, [Open(k)] + l + [c] + r, [Close(k)]);
    AtSplit(s, i, [Open(k)] + l + [c], r);
    AtSplit(s, i, [Open(k)] + l, [c]);
    AtSplit(s, i, [Open(k)], l);
    CharAt(s, i, Open(k));
    CharAt(s, i + 1 + |l|, c);
    CharAt(s, i + 1 + |l| + 1 + |r|, Close(k));
  }

  lemma {:induction false} AfterChar(s: string, k: Kind, p: nat, right: seq<Piece>)
    requires At(s, p + 1, Texts(right)) && p + 1 + |Texts(right)| < |s| && s[p + 1 + |Texts(right)|] == Close(k)
    requires s[p] == '"' ==> '"' !in Texts(right)
    ensures Scan(s, Open(k), Close(k), p, 1, false) == Some(p + 1 + |Texts(right)|)
            <==> s[p] != '"' && s[p] != Open(k) && s[p] != Close(k)
  {
    var j := p + 1 + |Texts(right)|;
    if s[p] == '"' {
      forall q | p + 1 <= q <= j ensures s[q] != '"' {
        if q < j { assert s[q] == s[p + 1..j][q - p - 1] == Texts(right)[q - p - 1]; }
      }
      ScanPast(s, Open(k), Close(k), p + 1, 1, j);
    } else if s[p] == Open(k) {
      ScanPieces(s, k, p + 1, 2, right);
      ScanFrom(s, Open(k), Close(k), j + 1, 1, false);
    } else if s[p] != Close(k) {
      ScanPieces(s, k, p + 1, 1, right);
    }
  }

  /** The scan does not know character literals: with a character of a literal inside, `'['` or
      `'\n'`, it finds the group's own partner exactly when that character is neither `"` nor a
      bracket of the group's kind. For a `"` no other follows in the group. */
  lemma {:induction false} CharLiteralExact(before: string, k: Kind, left: seq<Piece>, c: char, right: seq<Piece>,
      after: string)
    requires c == '"' ==> '"' !in Texts(right)
    ensures Partner(before + Broken(k, left, c, right) + after, |before|) ==
              Some(|before| + 2 + |Texts(left)| + |Texts(right)|)
            <==> c != '"' && c != Open(k) && c != Close(k)
  {
    hide *;
    var s := before + Broken(k, left, c, right) + after;
    var i := |before|;
    AtMiddle(before, Broken(k, left, c, right), after);
    BrokenAt(s, i, k, left, c, right);
    PartnerFrom(s, i, k);
    ScanPieces(s, k, i + 1, 1, left);
    AfterChar(s, k, i + 1 + |Texts(left)|, right);
  }

  /** `['[']` and `['"']` have no partner, and `[']']` has the wrong one. */
  lemma {:induction false} CharLiterals()
    ensures Partner("['[']", 0) != Some(4) && Partner("['\"']", 0) != Some(4) && Partner("[']']", 0) != Some(4)
  {
    var quote: seq<Piece> := [Plain('\'')];
    assert quote[1..] == [] && Texts(quote) == Text(quote[0]) + Texts([]) == "'";
    forall c | c == '[' || c == '"' || c == ']' ensures Partner("['" + [c] + "']", 0) != Some(4) {
      CharLiteralExact("", Square, quote, c, quote, "");
      assert "" + Broken(Square, quote, c, quote) + "" == "['" + [c] + "']";
    }
    assert "['" + ['['] + "']" == "['[']" && "['" + ['"'] + "']" == "['\"']" && "['" + [']'] + "']" == "[']']";
  }

  // ---- splitting on commas

  /** The parts from `i` on, `cur` the one being read. */
  function Split(s: string, i: nat, depth: int, inStr: bool, cur: string): seq<string>
    decreases |s| - i
  {
    if i >= |s| then [cur]
    else if inStr then
      if s[i] == '\\' then
        if i + 1 < |s| then Split(s, i + 2, depth, true, cur + [s[i]] + [s[i + 1]]) else [cur + [s[i]]]
      else Split(s, i + 1, depth, s[i] != '"', cur + [s[i]])
    else if s[i] == '"' then Split(s, i + 1, depth, true, cur + [s[i]])
    else if Opens(s[i]) then Split(s, i + 1, depth + 1, false, cur + [s[i]])
    else if Closes(s[i]) then Split(s, i + 1, depth - 1, false, cur + [s[i]])
    else if s[i] == ',' && depth == 0 then [cur] + Split(s, i + 1, depth, false, "")
    else Split(s, i + 1, depth, false, cur + [s[i]])
  }

  /** Unicode white space. */
  /** Trimmed, and what is empty then dropped. */
  function Kept(parts: seq<string>): seq<string> {
    if parts == [] then []
    else (if Trim(parts[0]) == "" then [] else [Trim(parts[0])]) + Kept(parts[1..])
  }

  lemma SameParts(parts: seq<string>, cur: string, rest: seq<string>)
    ensures parts + ([cur] + rest) == (parts + [cur]) + rest
  {
  }

  method SplitTop(s: string) returns (r: seq<string>)
    ensures r == Kept(Split(s, 0, 0, false, ""))
  {
    var parts: seq<string>, depth, inStr, cur, i := [], 0, false, "", 0;
    while i < |s|
      invariant parts + Split(s, i, depth, inStr, cur) == Split(s, 0, 0, false, "")
    {
      var c := s[i];
      i := i + 1;
      if inStr {
        cur := cur + [c];
        if c == '\\' {
          if i < |s| {
            cur := cur + [s[i]];
            i := i + 1;
          }
        } else if c == '"' {
          inStr := false;
        }
        continue;
      }
      if c == '"' {
        inStr := true;
      } else if Opens(c) {
        depth := depth + 1;
      } else if Closes(c) {
        depth := depth - 1;
      } else if c == ',' && depth == 0 {
        SameParts(parts, cur, Split(s, i, depth, false, ""));
        parts, cur := parts + [cur], "";
        continue;
      }
      cur := cur + [c];
    }
    parts := parts + [cur];
    r := Kept(parts);
  }

  predicate NoComma(ps: seq<Piece>) {
    forall i :: 0 <= i < |ps| ==> ps[i] != Plain(',')
  }

  lemma {:induction false} SplitString(s: string, i: nat, depth: int, cur: string, body: seq<Mark>)
    requires At(s, i, MarksText(body))
    ensures Split(s, i, depth, true, cur) == Split(s, i + |MarksText(body)|, depth, true, cur + MarksText(body))
    decreases body
  {
    hide At;
    if body == [] {
      assert cur + "" == cur;
    } else {
      var first := MarkText(body[0]);
      MarkAt(s, i, body);
      assert (if body[0].Escape? then cur + [s[i]] + [s[i + 1]] else cur + [s[i]]) == cur + first;
      SplitString(s, i + |first|, depth, cur + first, body[1..]);
      assert (cur + first) + MarksText(body[1..]) == cur + (first + MarksText(body[1..]));
    }
  }

  lemma SplitStr(s: string, i: nat, depth: int, cur: string, body: seq<Mark>)
    requires At(s, i, Text(Str(body)))
    ensures Split(s, i, depth, false, cur) == Split(s, i + |Text(Str(body))|, depth, false, cur + Text(Str(body)))
  {
    hide At;
    var inner := MarksText(body);
    StrAt(s, i, body);
    SplitString(s, i + 1, depth, cur + "\"", body);
    assert cur + "\"" + inner + "\"" == cur + ("\"" + inner + "\"");
  }

  lemma {:induction false} SplitPiece(s: string, i: nat, depth: int, cur: string, p: Piece)
    requires At(s, i, Text(p)) && depth >= 0 && (depth > 0 || p != Plain(','))
    ensures Split(s, i, depth, false, cur) == Split(s, i + |Text(p)|, depth, false, cur + Text(p))
    decreases p
  {
    hide At;
    match p
    case Plain(c) => PlainAt(s, i, c);
    case Str(body) => SplitStr(s, i, depth, cur, body);
    case Group(g, inside) =>
      GroupAt(s, i, g, inside);
      SplitPieces(s, i + 1, depth + 1, cur + [Open(g)], inside);
      assert cur + [Open(g)] + Texts(inside) + [Close(g)] == cur + ([Open(g)] + Texts(inside) + [Close(g)]);
  }

  lemma {:induction false} SplitPieces(s: string, i: nat, depth: int, cur: string, ps: seq<Piece>)
    requires At(s, i, Texts(ps)) && depth >= 0 && (depth > 0 || NoComma(ps))
    ensures Split(s, i, depth, false, cur) == Split(s, i + |Texts(ps)|, depth, false, cur + Texts(ps))
    decreases ps
  {
    hide At;
    if ps == [] {
      assert cur + "" == cur;
    } else {
      AtSplit(s, i, Text(ps[0]), Texts(ps[1..]));
      SplitPiece(s, i, depth, cur, ps[0]);
      SplitPieces(s, i + |Text(ps[0])|, depth, cur + Text(ps[0]), ps[1..]);
      assert cur + Text(ps[0]) + Texts(ps[1..]) == cur + (Text(ps[0]) + Texts(ps[1..]));
    }
  }

  function Printed(parts: seq<seq<Piece>>): seq<string> {
    if parts == [] then [] else [Texts(parts[0])] + Printed(parts[1..])
  }

  /** The parts with commas between them. */
  function Commas(parts: seq<seq<Piece>>): string {
    if parts == [] then "" else if |parts| == 1 then Texts(parts[0]) else Texts(parts[0]) + "," + Commas(parts[1..])
  }

  lemma CommaNext(s: string, i: nat, first: string, rest: string)
    requires i <= |s| && s[i..] == first + "," + rest
    ensures At(s, i, first)
    ensures var j := i + |first|; j < |s| && s[j] == ',' && s[j + 1..] == rest
  {
    var t := first + "," + rest;
    assert t[..|first|] == first && t[|first|] == ',' && t[|first| + 1..] == rest;
    assert s[i..i + |first|] == t[..|first|];
    assert s[i + |first| + 1..] == t[|first| + 1..];
  }

  lemma WholeAt(s: string, i: nat)
    requires i <= |s|
    ensures At(s, i, s[i..])
  {
    assert s[i..i + |s[i..]|] == s[i..];
  }

  lemma {:induction false} SplitCommas(s: string, i: nat, parts: seq<seq<Piece>>)
    requires i <= |s| && s[i..] == Commas(parts) && parts != []
    requires forall k :: 0 <= k < |parts| ==> NoComma(parts[k])
    ensures Split(s, i, 0, false, "") == Printed(parts)
    decreases |parts|
  {
    hide At;
    var first := Texts(parts[0]);
    assert "" + first == first;
    if |parts| == 1 {
      WholeAt(s, i);
      SplitPieces(s, i, 0, "", parts[0]);
      assert parts[1..] == [];
    } else {
      CommaNext(s, i, first, Commas(parts[1..]));
      SplitPieces(s, i, 0, "", parts[0]);
      SplitCommas(s, i + |first| + 1, parts[1..]);
    }
  }

  /** Joining well-nested parts without a comma of their own and splitting gives the parts back,
      trimmed, the empty ones dropped. */
  lemma SplitJoined(parts: seq<seq<Piece>>)
    requires forall k :: 0 <= k < |parts| ==> NoComma(parts[k])
    ensures Kept(Split(Commas(parts), 0, 0, false, "")) == Kept(Printed(parts))
  {
    if parts == [] {
      assert Split("", 0, 0, false, "") == [""];
    } else {
      assert Commas(parts)[0..] == Commas(parts);
      SplitCommas(Commas(parts), 0, parts);
    }
  }

  lemma {:induction false} KeptWhole(parts: seq<string>)
    requires forall k :: 0 <= k < |parts| ==> parts[k] != "" && Trim(parts[k]) == parts[k]
    ensures Kept(parts) == parts
  {
    if parts != [] { KeptWhole(parts[1..]); }
  }

  lemma {:induction false} PrintedLike(parts: seq<seq<Piece>>)
    requires forall k :: 0 <= k < |parts| ==> Whole(parts[k])
    ensures |Printed(parts)| == |parts|
    ensures forall k :: 0 <= k < |parts| ==> Printed(parts)[k] != "" && Trim(Printed(parts)[k]) == Printed(parts)[k]
  {
    if parts != [] { PrintedLike(parts[1..]); }
  }

  /** Not empty, and as it is trimmed. */
  predicate Whole(ps: seq<Piece>) { Texts(ps) != "" && Trim(Texts(ps)) == Texts(ps) }

  /** Trimmed parts that are not empty come back exactly. */
  lemma SplitInvertsJoin(parts: seq<seq<Piece>>)
    requires forall k :: 0 <= k < |parts| ==> NoComma(parts[k]) && Whole(parts[k])
    ensures Kept(Split(Commas(parts), 0, 0, false, "")) == Printed(parts)
  {
    SplitJoined(parts);
    PrintedLike(parts);
    KeptWhole(Printed(parts));
  }

  // ---- bumps

  /** The text outside string literals, from `i` on. */
  function Outside(s: string, i: nat, inStr: bool): string
    decreases |s| - i
  {
    if i >= |s| then ""
    else if inStr then
      if s[i] == '\\' then Outside(s, i + 2, true) else Outside(s, i + 1, s[i] != '"')
    else if s[i] == '"' then Outside(s, i + 1, true)
    else [s[i]] + Outside(s, i + 1, false)
  }

  method SplitStrings(e: string) returns (out: string)
    ensures out == Outside(e, 0, false)
  {
    out := "";
    var inStr, i := false, 0;
    while i < |e|
      invariant out + Outside(e, i, inStr) == Outside(e, 0, false)
    {
      var c := e[i];
      i := i + 1;
      if inStr {
        if c == '\\' {
          i := i + 1;
        } else if c == '"' {
          inStr := false;
        }
      } else if c == '"' {
        inStr := true;
      } else {
        out := out + [c];
      }
    }
  }

  /** Well-nested text with its string literals taken out. */
  function Bare(ps: seq<Piece>): seq<Piece>
    decreases ps
  {
    if ps == [] then [] else BarePiece(ps[0]) + Bare(ps[1..])
  }

  function BarePiece(p: Piece): (r: seq<Piece>)
    ensures |r| <= 1
    decreases p
  {
    match p
    case Plain(_) => [p]
    case Str(_) => []
    case Group(k, inside) => [Group(k, Bare(inside))]
  }

  lemma {:induction false} OutsideString(s: string, i: nat, body: seq<Mark>)
    requires At(s, i, MarksText(body))
    ensures Outside(s, i, true) == Outside(s, i + |MarksText(body)|, true)
    decreases body
  {
    if body != [] {
      var first := MarkText(body[0]);
      MarkAt(s, i, body);
      OutsideString(s, i + |first|, body[1..]);
    }
  }

  lemma OutsideStr(s: string, i: nat, body: seq<Mark>)
    requires At(s, i, Text(Str(body)))
    ensures Outside(s, i, false) == Outside(s, i + |Text(Str(body))|, false)
  {
    var inner := MarksText(body);
    StrAt(s, i, body);
    OutsideString(s, i + 1, body);
  }

  lemma TextsAfter(part: seq<Piece>, rest: seq<Piece>)
    requires |part| <= 1
    ensures Texts(part + rest) == Texts(part) + Texts(rest)
  {
    if part == [] {
      assert part + rest == rest;
    } else {
      assert (part + rest)[1..] == rest && part[1..] == [];
    }
  }

  lemma TextsOne(p: Piece)
    ensures Texts([p]) == Text(p)
  {
    assert [p][1..] == [] && Text(p) + "" == Text(p);
  }

  lemma OutsideEnds(s: string, i: nat, j: nat, g: Kind, inner: string)
    requires i < j < |s| && s[i] == Open(g) && s[j] == Close(g)
    requires Outside(s, i + 1, false) == inner + Outside(s, j, false)
    ensures Outside(s, i, false) == [Open(g)] + inner + [Close(g)] + Outside(s, j + 1, false)
  {
    assert Outside(s, j, false) == [Close(g)] + Outside(s, j + 1, false);
    assert Outside(s, i, false) == [Open(g)] + Outside(s, i + 1, false);
  }

  lemma OutsidePlain(s: string, i: nat)
    requires i < |s| && s[i] != '"'
    ensures Outside(s, i, false) == [s[i]] + Outside(s, i + 1, false)
  {
  }

  lemma {:induction false} OutsidePiece(s: string, i: nat, p: Piece)
    requires At(s, i, Text(p))
    ensures Outside(s, i, false) == Texts(BarePiece(p)) + Outside(s, i + |Text(p)|, false)
    decreases p
  {
    hide At, Outside, MarksText;
    match p
    case Plain(c) =>
      PlainAt(s, i, c);
      OutsidePlain(s, i);
      TextsOne(p);
    case Str(body) =>
      OutsideStr(s, i, body);
    case Group(g, inside) =>
      GroupAt(s, i, g, inside);
      OutsidePieces(s, i + 1, inside);
      OutsideEnds(s, i, i + 1 + |Texts(inside)|, g, Texts(Bare(inside)));
      TextsOne(Group(g, Bare(inside)));
  }

  lemma PutTogether(a: string, b: string, c: string, x: string, y: string)
    requires x == a + y && y == b + c
    ensures x == (a + b) + c
  {
  }

  /** String literals are left out, at any nesting, and everything else is kept in order. */
  lemma {:induction false} OutsidePieces(s: string, i: nat, ps: seq<Piece>)
    requires At(s, i, Texts(ps))
    ensures Outside(s, i, false) == Texts(Bare(ps)) + Outside(s, i + |Texts(ps)|, false)
    decreases ps
  {
    hide At, Outside, Text, BarePiece;
    if ps != [] {
      var j := i + |Text(ps[0])|;
      AtSplit(s, i, Text(ps[0]), Texts(ps[1..]));
      OutsidePiece(s, i, ps[0]);
      OutsidePieces(s, j, ps[1..]);
      TextsAfter(BarePiece(ps[0]), Bare(ps[1..]));
      PutTogether(Texts(BarePiece(ps[0])), Texts(Bare(ps[1..])), Outside(s, i + |Texts(ps)|, false),
        Outside(s, i, false), Outside(s, j, false));
    }
  }

  /** What `split_strings` keeps of well-nested text. */
  lemma BareText(ps: seq<Piece>)
    ensures Outside(Texts(ps), 0, false) == Texts(Bare(ps))
  {
    OutsidePieces(Texts(ps), 0, ps);
  }

  /** The first `;` outside brackets; strings are not skipped. */
  function TopSemicolon(s: string, i: nat, depth: int): (r: Option<nat>)
    ensures r.Some? ==> r.value < |s| && s[r.value] == ';'
    decreases |s| - i
  {
    if i >= |s| then None
    else if Opens(s[i]) then TopSemicolon(s, i + 1, depth + 1)
    else if Closes(s[i]) then TopSemicolon(s, i + 1, depth - 1)
    else if s[i] == ';' && depth == 0 then Some(i)
    else TopSemicolon(s, i + 1, depth)
  }

  method TopLevelSemicolon(s: string) returns (r: Option<nat>)
    ensures r == TopSemicolon(s, 0, 0)
    ensures r.Some? ==> r.value < |s| && s[r.value] == ';'
  {
    var depth := 0;
    for i := 0 to |s|
      invariant TopSemicolon(s, i, depth) == TopSemicolon(s, 0, 0)
    {
      if Opens(s[i]) {
        depth := depth + 1;
      } else if Closes(s[i]) {
        depth := depth - 1;
      } else if s[i] == ';' && depth == 0 {
        return Some(i);
      }
    }
    r := None;
  }

  datatype Span = Span(start: nat, end: nat)

  /** The last `let name =` in a text. */
  type Lets = f: (string, string) -> Option<Span> |
    forall t: string, n: string :: f(t, n).Some? ==> f(t, n).value.start < f(t, n).value.end <= |t|
    witness (_, _) => None

  datatype Binding = Binding(init: string, earlier: string)

  function LetInit(lets: Lets, before: string, name: string): (r: Option<Binding>)
    ensures r.Some? ==> |r.value.earlier| < |before|
  {
    var m := lets(before, name);
    if m.None? then None
    else
      var rest := before[m.value.end..];
      var end := TopSemicolon(rest, 0, 0);
      if end.None? then None
      else Some(Binding(rest[..end.value], before[..m.value.start]))
  }

  function Lower(s: string): string {
    if s == "" then ""
    else [if 'A' <= s[0] <= 'Z' then (s[0] as int + 32) as char else s[0]] + Lower(s[1..])
  }

  predicate Contains(s: string, part: string) { exists i :: 0 <= i <= |s| && At(s, i, part) }

  function DropAmps(s: string): string { if s != "" && s[0] == '&' then DropAmps(s[1..]) else s }

  /** The inside of `[..]`, `&[..]` or `&[..][..]`. */
  function ListInside(text: string): Option<string> {
    var e := Trim(DropAmps(Trim(text)));
    var cut := |e| - 4;
    var e := Trim(if cut >= 0 && e[cut..] == "[..]" then e[..cut] else e);
    if e == "" || e[0] != '[' then None
    else
      var close := Partner(e, 0);
      if close == Some(|e| - 1) && |e| > 1 then Some(e[1..|e| - 1]) else None
  }

  /** A name: letters, digits and `_` of Unicode, no ASCII digit first. */
  function Ident(alphanumeric: char -> bool, text: string): Option<string> {
    var e := Trim(text);
    if e != "" && (forall i :: 0 <= i < |e| ==> alphanumeric(e[i]) || e[i] == '_') && !('0' <= e[0] <= '9') then Some(e)
    else None
  }

  /** An element that says by itself it is a bump. */
  predicate SaysBump(e: string) {
    var low := Lower(Outside(e, 0, false));
    var inside := ListInside(Trim(e));
    || Contains(low, "bump") || Contains(low, "nonce") || Contains(low, "from_ref(")
    || (inside.Some? && |Kept(Split(inside.value, 0, 0, false, ""))| == 1)
  }

  /** Where the name an element is, is bound. */
  function Bound(lets: Lets, alphanumeric: char -> bool, e: string, before: string): (r: Option<Binding>)
    ensures r.Some? ==> |r.value.earlier| < |before|
  {
    var name := Ident(alphanumeric, Trim(DropAmps(Trim(e))));
    if name.None? then None else LetInit(lets, before, name.value)
  }

  /** `is_bump`: it ends, since the text before each `let` is shorter. */
  predicate IsBump(lets: Lets, alphanumeric: char -> bool, e: string, before: string)
    decreases |before|
  {
    if SaysBump(e) then true
    else
      var b := Bound(lets, alphanumeric, e, before);
      b.Some? && IsBump(lets, alphanumeric, b.value.init, b.value.earlier)
  }

  /** An element and the initializers its name resolves to in turn: no more of them than there are
      characters before the call. */
  function Trail(lets: Lets, alphanumeric: char -> bool, e: string, before: string): (r: seq<string>)
    ensures 1 <= |r| <= |before| + 1
    decreases |before|
  {
    var b := Bound(lets, alphanumeric, e, before);
    [e] + if b.None? then [] else Trail(lets, alphanumeric, b.value.init, b.value.earlier)
  }

  predicate SomeSays(texts: seq<string>) { exists k :: 0 <= k < |texts| && SaysBump(texts[k]) }

  lemma SomeSaysFirst(e: string, rest: seq<string>)
    ensures SomeSays([e] + rest) <==> SaysBump(e) || SomeSays(rest)
  {
    hide SaysBump;
    var texts := [e] + rest;
    assert texts[0] == e;
    if SomeSays(rest) {
      var k :| 0 <= k < |rest| && SaysBump(rest[k]);
      assert texts[k + 1] == rest[k];
    }
  }

  /** An element is a bump exactly when something it resolves to says so. */
  lemma {:induction false} BumpOnTrail(lets: Lets, alphanumeric: char -> bool, e: string, before: string)
    ensures IsBump(lets, alphanumeric, e, before) <==> SomeSays(Trail(lets, alphanumeric, e, before))
    decreases |before|
  {
    hide SaysBump, SomeSays, Bound;
    var b := Bound(lets, alphanumeric, e, before);
    if b.Some? {
      BumpOnTrail(lets, alphanumeric, b.value.init, b.value.earlier);
      SomeSaysFirst(e, Trail(lets, alphanumeric, b.value.init, b.value.earlier));
    } else {
      SomeSaysFirst(e, []);
      NoneSays();
    }
  }

  lemma NoneSays()
    ensures !SomeSays([])
  {
  }

  // ----------------------------------------------------- what is outside

  /** Brackets opened before `i` and not closed, strings not told apart. */
  function Balance(s: string, i: nat): int
    requires i <= |s|
  {
    if i == 0 then 0
    else Balance(s, i - 1) + if Opens(s[i - 1]) then 1 else if Closes(s[i - 1]) then -1 else 0
  }

  predicate EndsAt(s: string, i: nat) { i < |s| && s[i] == ';' && Balance(s, i) == 0 }

  /** The `;` found is the first with as many brackets closed before it as opened. */
  lemma {:induction false} SemicolonExact(s: string, r: Option<nat>)
    ensures r == TopSemicolon(s, 0, 0) <==>
              match r
              case Some(i) => EndsAt(s, i) && forall j :: 0 <= j < i ==> !EndsAt(s, j)
              case None => forall j: nat :: !EndsAt(s, j)
  {
    SemicolonFrom(s, 0);
    var found := TopSemicolon(s, 0, 0);
    if r.Some? && found.Some? && EndsAt(s, r.value) && (forall j :: 0 <= j < r.value ==> !EndsAt(s, j)) {
      assert r.value == found.value;
    }
  }

  lemma {:induction false} SemicolonFrom(s: string, i: nat)
    requires i <= |s|
    ensures match TopSemicolon(s, i, Balance(s, i))
            case Some(k) => i <= k && EndsAt(s, k) && forall j: nat :: i <= j < k ==> !EndsAt(s, j)
            case None => forall j: nat :: i <= j ==> !EndsAt(s, j)
    decreases |s| - i
  {
    if i < |s| { SemicolonFrom(s, i + 1); }
  }

  /** A well-nested element with a bump's words outside its literals, in any case, says it is a bump;
      words in a literal do not count; and otherwise only a list of one element does. */
  lemma {:induction false} SaysExact(ps: seq<Piece>)
    ensures var e, low := Texts(ps), Lower(Texts(Bare(ps)));
            SaysBump(e) <==>
            || Contains(low, "bump") || Contains(low, "nonce") || Contains(low, "from_ref(")
            || (ListInside(Trim(e)).Some? && |Kept(Split(ListInside(Trim(e)).value, 0, 0, false, ""))| == 1)
  {
    BareText(ps);
    hide Texts, Bare, Outside, Lower, Contains, ListInside, Kept, Split, Trim;
  }

  // --------------------------------------------------------------- lists

  lemma EdgedTrim(s: string)
    requires Edged(s)
    ensures Trim(s) == s
  {
  }

  /** The text of one list. */
  lemma {:induction false} ListPartner(ps: seq<Piece>)
    ensures var e := "[" + Texts(ps) + "]"; Edged(e) && Partner(e, 0) == Some(|e| - 1) && e[1..|e| - 1] == Texts(ps)
  {
    var e := "[" + Texts(ps) + "]";
    PartnerOfGroup("", Square, ps, "");
    assert "" + Text(Group(Square, ps)) + "" == e;
    hide Texts, Partner;
    assert e[0] == '[' && e[|e| - 1] == ']';
  }

  predicate IsRest(s: string) { |s| >= 4 && s[|s| - 4..] == "[..]" }

  /** The inside of a list is what stands between its brackets, and of a borrowed slice of all of it the
      same; only a list that is itself written `[..]` has none. */
  lemma {:induction false} ListInsideExact(ps: seq<Piece>)
    ensures !IsRest("[" + Texts(ps) + "]") ==> ListInside("[" + Texts(ps) + "]") == Some(Texts(ps))
    ensures ListInside("&[" + Texts(ps) + "][..]") == Some(Texts(ps))
  {
    ListPartner(ps);
    var e := "[" + Texts(ps) + "]";
    hide Texts, Partner, Trim, IsWhite;
    EdgedTrim(e);
    assert DropAmps(e) == e;
    var t := "&[" + Texts(ps) + "][..]";
    var u := e + "[..]";
    assert t[0] == '&' && t[|t| - 1] == ']' && u[0] == '[' && u[|u| - 1] == ']' && t[1..] == u;
    assert Edged(t) && Edged(u) by { NoSpaces(); }
    EdgedTrim(t);
    EdgedTrim(u);
    assert DropAmps(t) == DropAmps(u) == u;
    assert u[|u| - 4..] == "[..]" && u[..|u| - 4] == e;
  }

  lemma NoSpaces()
    ensures !IsWhite('&') && !IsWhite('[') && !IsWhite(']')
  {
  }

  // --------------------------------------------------------- what is bound

  /** Parts are kept in order, trimmed, unless blank. */
  lemma {:induction false} KeptExact(parts: seq<string>, a: string, s: string, b: string)
    requires Blank(a) && Blank(b) && (s == "" || Edged(s))
    ensures Kept(parts + [a + s + b]) == Kept(parts) + if s == "" then [] else [s]
  {
    if parts == [] {
      hide Trim, Blank;
      TrimExact(a, s, b);
      assert parts + [a + s + b] == [a + s + b];
    } else {
      hide Trim, Blank;
      assert (parts + [a + s + b])[1..] == parts[1..] + [a + s + b];
      KeptExact(parts[1..], a, s, b);
    }
  }

  /** The initializer goes up to its own `;`, and the text before the `let` is what is left. */
  lemma LetInitExact(lets: Lets, before: string, name: string, b: Binding)
    ensures LetInit(lets, before, name) == Some(b) <==>
              && lets(before, name).Some?
              && (var m := lets(before, name).value;
                  && b.earlier == before[..m.start]
                  && m.end + |b.init| < |before| && before[m.end..m.end + |b.init|] == b.init
                  && EndsAt(before[m.end..], |b.init|)
                  && forall j :: 0 <= j < |b.init| ==> !EndsAt(before[m.end..], j))
  {
    var m := lets(before, name);
    if m.Some? {
      var rest := before[m.value.end..];
      SemicolonExact(rest, TopSemicolon(rest, 0, 0));
      SemicolonExact(rest, Some(|b.init|));
      assert m.value.end + |b.init| < |before| ==>
          before[m.value.end..m.value.end + |b.init|] == rest[..|b.init|];
    }
  }

  function Amps(n: nat): string { if n == 0 then "" else "&" + Amps(n - 1) }

  lemma {:induction false} AmpsDropped(n: nat, s: string)
    requires s != "" && s[0] != '&'
    ensures DropAmps(Amps(n) + s) == s
  {
    if n == 0 {
      assert Amps(n) + s == s;
    } else {
      assert (Amps(n) + s)[1..] == Amps(n - 1) + s;
      AmpsDropped(n - 1, s);
    }
  }

  /** An element `&..&name`, with any space around it, is looked up iff it is a name. */
  lemma BoundExact(lets: Lets, alphanumeric: char -> bool, n: nat, name: string, a: string, b: string, before: string)
    requires Edged(name) && name[0] != '&' && Blank(a) && Blank(b)
    ensures Bound(lets, alphanumeric, a + (Amps(n) + name) + b, before) ==
              if (forall c :: c in name ==> alphanumeric(c) || c == '_') && name[0] !in "0123456789"
              then LetInit(lets, before, name) else None
  {
    var e := Amps(n) + name;
    assert e[|e| - 1] == name[|name| - 1];
    assert Edged(e) by { if n > 0 { NoSpaces(); assert e[0] == '&'; } else { assert e == name; } }
    TrimExact(a, e, b);
    AmpsDropped(n, name);
    EdgedTrim(name);
    assert (forall i :: 0 <= i < |name| ==> alphanumeric(name[i]) || name[i] == '_') <==>
        forall c :: c in name ==> alphanumeric(c) || c == '_';
    assert ('0' <= name[0] <= '9') <==> name[0] in "0123456789" by { DigitIn(name[0]); }
  }

  lemma DigitIn(c: char)
    ensures '0' <= c <= '9' <==> c in "0123456789"
  {
    var digits := "0123456789";
    assert forall i :: 0 <= i < 10 ==> digits[i] as int == '0' as int + i;
    if '0' <= c <= '9' { assert digits[c as int - '0' as int] == c; }
  }
}
