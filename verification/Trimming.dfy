/** White space, as `char::is_whitespace` has it, and trimming it. */
module Trimming {
  predicate IsWhite(c: char) {
    || '\t' <= c <= '\r' || c == ' ' || c == '\U{0085}' || c == '\U{00A0}' || c == '\U{1680}'
    || '\U{2000}' <= c <= '\U{200A}' || c == '\U{2028}' || c == '\U{2029}' || c == '\U{202F}'
    || c == '\U{205F}' || c == '\U{3000}'
  }

  function TrimStart(s: string): string {
    if s != "" && IsWhite(s[0]) then TrimStart(s[1..]) else s
  }

  function TrimEnd(s: string): string {
    if s != "" && IsWhite(s[|s| - 1]) then TrimEnd(s[..|s| - 1]) else s
  }

  function Trim(s: string): string { TrimEnd(TrimStart(s)) }

  predicate Blank(s: string) { forall i :: 0 <= i < |s| ==> IsWhite(s[i]) }

  predicate Edged(s: string) { s != "" && !IsWhite(s[0]) && !IsWhite(s[|s| - 1]) }

  lemma {:induction false} StartTrimmed(a: string, s: string)
    requires Blank(a) && (s != "" ==> !IsWhite(s[0]))
    ensures TrimStart(a + s) == s
  {
    if a == "" {
      assert a + s == s;
    } else {
      assert (a + s)[1..] == a[1..] + s;
      StartTrimmed(a[1..], s);
    }
  }

  lemma {:induction false} EndTrimmed(s: string, b: string)
    requires Blank(b) && (s != "" ==> !IsWhite(s[|s| - 1]))
    ensures TrimEnd(s + b) == s
  {
    if b == "" {
      assert s + b == s;
    } else {
      assert (s + b)[..|s + b| - 1] == s + b[..|b| - 1];
      EndTrimmed(s, b[..|b| - 1]);
    }
  }

  /** Space around a text is trimmed, and a text of nothing else is empty. */
  lemma TrimExact(a: string, s: string, b: string)
    requires Blank(a) && Blank(b) && (s == "" || Edged(s))
    ensures Trim(a + s + b) == s
  {
    if s == "" {
      assert Blank(a + s + b) && a + s + b == (a + b) + "";
      StartTrimmed(a + b, "");
    } else {
      assert a + s + b == a + (s + b);
      StartTrimmed(a, s + b);
      EndTrimmed(s, b);
    }
  }
}
