/** Base58 (crates/solinv-static/src/legacy.rs, `base58`): decoding by carrying in place. */
module Base58 {
  import opened Common
  import opened Radix

  type digit = n: nat | n < 58

  /** The letter for a digit. */
  function Letter(n: digit): char {
    if n < 9 then '1' + n as char
    else if n < 17 then 'A' + (n - 9) as char
    else if n < 22 then 'J' + (n - 17) as char
    else if n < 33 then 'P' + (n - 22) as char
    else if n < 44 then 'a' + (n - 33) as char
    else 'm' + (n - 44) as char
  }

  const LOW: string := "123456789ABCDEFGHJKLMNPQR"
  const HIGH: string := "STUVWXYZabcdefghijkmnopqrstuvwxyz"

  /** The alphabet, written out, is `Letter`. */
  lemma TableIsLetter(n: digit)
    ensures |LOW + HIGH| == 58 && (LOW + HIGH)[n] == Letter(n)
  {
    if n < 25 {
      assert (LOW + HIGH)[n] == LOW[n];
    } else {
      assert (LOW + HIGH)[n] == HIGH[n - 25];
    }
  }

  /** The position of a character in the alphabet. */
  function Position(c: char): Option<digit> {
    if '1' <= c <= '9' then Some((c - '1') as int)
    else if 'A' <= c <= 'H' then Some((c - 'A') as int + 9)
    else if 'J' <= c <= 'N' then Some((c - 'J') as int + 17)
    else if 'P' <= c <= 'Z' then Some((c - 'P') as int + 22)
    else if 'a' <= c <= 'k' then Some((c - 'a') as int + 33)
    else if 'm' <= c <= 'z' then Some((c - 'm') as int + 44)
    else None
  }

  lemma PositionLetter(n: digit)
    ensures Position(Letter(n)) == Some(n)
  {
  }

  lemma LetterPosition(c: char)
    requires Position(c).Some?
    ensures Letter(Position(c).value) == c
  {
  }

  predicate InAlphabet(s: string) { forall i :: 0 <= i < |s| ==> Position(s[i]).Some? }

  function Positions(s: string): (r: seq<nat>)
    requires InAlphabet(s)
    ensures |r| == |s|
    ensures forall i :: 0 <= i < |s| ==> r[i] == Position(s[i]).value
    ensures Below(r, 58)
  {
    seq(|s|, i requires 0 <= i < |s| => Position(s[i]).value)
  }

  function Letters(ds: seq<nat>): (r: string)
    requires Below(ds, 58)
    ensures |r| == |ds|
    ensures forall i :: 0 <= i < |ds| ==> r[i] == Letter(ds[i])
  {
    seq(|ds|, i requires 0 <= i < |ds| => Letter(ds[i]))
  }

  predicate IsBytes(b: seq<nat>) { Below(b, 256) }

  /** The standard encoder: a `1` for each leading zero byte, then the digits of the rest. */
  function Encode(b: seq<nat>): string { Letters(Convert(b, 256, 58)) }

  lemma LettersPositions(s: string)
    requires InAlphabet(s)
    ensures Letters(Positions(s)) == s
  {
    forall i | 0 <= i < |s| ensures Letters(Positions(s))[i] == s[i] {
      LetterPosition(s[i]);
    }
  }

  lemma PositionsLetters(ds: seq<nat>)
    requires Below(ds, 58)
    ensures InAlphabet(Letters(ds)) && Positions(Letters(ds)) == ds
  {
    forall i | 0 <= i < |ds| ensures Position(Letters(ds)[i]) == Some(ds[i]) {
      assert ds[i] in ds;
      PositionLetter(ds[i]);
    }
  }

  /** Decoding and the standard encoder are each other's inverse. */
  lemma {:induction false} EncodeInverse(s: string, b: seq<nat>)
    requires IsBytes(b)
    ensures s == Encode(b) <==> InAlphabet(s) && b == Convert(Positions(s), 58, 256)
  {
    if s == Encode(b) {
      PositionsLetters(Convert(b, 256, 58));
      ConvertBack(b, 256, 58);
    }
    if InAlphabet(s) && b == Convert(Positions(s), 58, 256) {
      ConvertBack(Positions(s), 58, 256);
      LettersPositions(s);
    }
  }

  lemma EncodeInjective(a: seq<nat>, b: seq<nat>)
    requires IsBytes(a) && IsBytes(b) && Encode(a) == Encode(b)
    ensures a == b
  {
    EncodeInverse(Encode(a), a);
    EncodeInverse(Encode(a), b);
  }

  lemma ValPrefix(ds: seq<nat>, k: nat, b: nat)
    requires k < |ds|
    ensures Val(ds[..k + 1], b) == Val(ds[..k], b) * b + ds[k]
  {
    assert ds[..k + 1][..k] == ds[..k];
  }

  /** `None` for a character outside the alphabet; otherwise the only bytes the standard encoder
      writes as `s`. The carry stays in 32 bits and adds at most one byte a character. */
  method Decode(s: string) returns (r: Option<seq<nat>>)
    ensures r.None? <==> !InAlphabet(s)
    ensures r.Some? ==> IsBytes(r.value)
    ensures forall b :: IsBytes(b) ==> (r == Some(b) <==> s == Encode(b))
  {
    var out := Accumulate(s);
    if out.Some? {
      var ones := LeadingOnes(s);
      LeDigits(out.value);
      ReversedZeros(out.value, ones);
      r := Some(Reversed(out.value + Zeros(ones)));
      assert r.value == Convert(Positions(s), 58, 256);
    } else {
      r := None;
    }
    forall b | IsBytes(b) ensures r == Some(b) <==> s == Encode(b) {
      EncodeInverse(s, b);
    }
  }

  /** One more character of the text. */
  lemma {:induction false} OneMore(s: string, k: nat)
    requires k < |s| && InAlphabet(s[..k]) && Position(s[k]).Some?
    ensures InAlphabet(s[..k + 1])
    ensures Val(Positions(s[..k + 1]), 58) == Val(Positions(s[..k]), 58) * 58 + Position(s[k]).value
  {
    var ds := Positions(s[..k + 1]);
    assert s[..k + 1] == s[..k] + [s[k]];
    assert ds == Positions(s[..k]) + [Position(s[k]).value];
    ValPrefix(ds, k, 58);
    assert ds[..k] == Positions(s[..k]) && ds[..k + 1] == ds;
  }

  method Accumulate(s: string) returns (r: Option<seq<nat>>)
    ensures r.None? <==> !InAlphabet(s)
    ensures r.Some? ==> IsBytes(r.value) && NoZeroTop(r.value) && Le(r.value) == Val(Positions(s), 58)
  {
    var out: seq<nat> := []; // little-endian base-256
    for k := 0 to |s|
      invariant InAlphabet(s[..k]) && IsBytes(out) && NoZeroTop(out)
      invariant Le(out) == Val(Positions(s[..k]), 58)
    {
      var p := Position(s[k]);
      if p.None? {
        return None;
      }
      OneMore(s, k);
      MulAddMeans(out, p.value);
      MulAddTop(out, p.value);
      out := Carry(out, p.value);
    }
    assert s[..|s|] == s;
    r := Some(out);
  }

  method LeadingOnes(s: string) returns (ones: nat)
    requires InAlphabet(s)
    ensures ones == Lead(Positions(s))
  {
    ones := 0;
    assert Positions(s)[0..] == Positions(s);
    while ones < |s| && s[ones] == '1'
      invariant 0 <= ones <= |s|
      invariant Lead(Positions(s)) == ones + Lead(Positions(s)[ones..])
    {
      assert Positions(s)[ones..][1..] == Positions(s)[ones + 1..];
      ones := ones + 1;
    }
    if ones < |s| {
      LetterPosition(s[ones]);
    }
  }

  lemma ReversedZeros(b: seq<nat>, k: nat)
    ensures Reversed(b + Zeros(k)) == Zeros(k) + Reversed(b)
  {
  }

  lemma MulAddAt(b: seq<nat>, j: nat, carry: nat)
    requires j < |b|
    ensures var t := carry + b[j] * 58; MulAdd(b[j..], carry) == [t % 256] + MulAdd(b[j + 1..], t / 256)
  {
    assert b[j..][0] == b[j] && b[j..][1..] == b[j + 1..];
  }

  /** One character: every byte times 58, the carry rippling up in place. */
  method Carry(b: seq<nat>, digit: nat) returns (out: seq<nat>)
    requires digit < 58 && IsBytes(b)
    ensures out == MulAdd(b, digit) && |b| <= |out| <= |b| + 1
  {
    hide MulAdd;
    out := b;
    var carry: u32 := digit;
    for j := 0 to |b|
      invariant |out| == |b| && carry <= 57
      invariant out[j..] == b[j..]
      invariant MulAdd(b, digit) == out[..j] + MulAdd(b[j..], carry)
    {
      assert out[j] == out[j..][0] == b[j..][0] == b[j] < 256;
      MulAddAt(b, j, carry);
      var t: u32 := carry + out[j] * 58;
      ghost var before, rest := out[..j], MulAdd(b[j + 1..], t / 256);
      out := out[j := t % 256];
      assert out[..j + 1] == before + [t % 256];
      assert before + ([t % 256] + rest) == out[..j + 1] + rest;
      assert out[j + 1..] == b[j + 1..];
      carry := t / 256;
    }
    assert out[..|b|] == out && b[|b|..] == [];
    ghost var pushed := 0;
    while carry > 0
      invariant carry <= 57 && (pushed == 0 || carry == 0) && pushed <= 1 && |out| == |b| + pushed
      invariant MulAdd(b, digit) == out + MulAdd([], carry)
      decreases carry
    {
      CarryOver(out, carry);
      out := out + [carry % 256];
      carry := carry / 256;
      pushed := pushed + 1;
    }
    CarryOver(out, 0);
  }

  lemma CarryOver(out: seq<nat>, carry: nat)
    ensures carry > 0 ==> out + MulAdd([], carry) == (out + [carry % 256]) + MulAdd([], carry / 256)
    ensures out + MulAdd([], 0) == out
  {
  }
}
