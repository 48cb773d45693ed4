/** Integers in decimal: as they are parsed and as they are printed. */
module Decimals {
  import opened Common

  predicate IsDigit(c: char) { '0' <= c <= '9' }

  /** The value of a run of decimal digits. */
  function Decimal(s: string): nat
    requires forall i :: 0 <= i < |s| ==> IsDigit(s[i])
  {
    if s == "" then 0 else assert IsDigit(s[|s| - 1]); Decimal(s[..|s| - 1]) * 10 + (s[|s| - 1] - '0') as int
  }

  /** An integer as it is written: an optional `+`, or `-` for a signed type, and digits. */
  function Written(text: string, signed: bool): (r: Option<int>)
    ensures r.Some? && !signed ==> r.value >= 0
  {
    var negative := signed && text != "" && text[0] == '-';
    var body := if negative || (text != "" && text[0] == '+') then text[1..] else text;
    if body == "" || exists i :: 0 <= i < |body| && !IsDigit(body[i]) then None
    else Some(if negative then -(Decimal(body) as int) else Decimal(body))
  }

  /** `n.to_string()` */
  function Show(n: nat): (s: string)
    ensures s != "" && forall i :: 0 <= i < |s| ==> IsDigit(s[i])
  {
    if n < 10 then [('0' as int + n) as char] else Show(n / 10) + [('0' as int + n % 10) as char]
  }

  lemma DecimalShow(n: nat)
    ensures Decimal(Show(n)) == n
  {
    if n >= 10 {
      DecimalShow(n / 10);
      assert Show(n)[..|Show(n)| - 1] == Show(n / 10);
    } else {
      assert Show(n)[..0] == "";
    }
  }

  lemma WrittenShow(n: nat)
    ensures Written(Show(n), false) == Some(n)
  {
    DecimalShow(n);
    assert IsDigit(Show(n)[0]);
  }

  lemma ShowInjective(m: nat, n: nat)
    requires Show(m) == Show(n)
    ensures m == n
  {
    DecimalShow(m);
    DecimalShow(n);
  }
}
