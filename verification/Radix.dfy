/** Numbers in base 58 and base 256: the one way to write each, and the two little-endian readings
    of a byte buffer used by the legacy seed reader. */
module Radix {
  import opened Common

  predicate IsBase(b: nat) { b == 58 || b == 256 }

  predicate Below(ds: seq<nat>, b: nat) { forall i :: 0 <= i < |ds| ==> ds[i] < b }

  /** The value of digits, the most significant first. */
  function Val(ds: seq<nat>, b: nat): nat {
    if ds == [] then 0 else Val(ds[..|ds| - 1], b) * b + ds[|ds| - 1]
  }

  /** The digits of a number, none for 0. */
  function Digits(n: nat, b: nat): (r: seq<nat>)
    requires IsBase(b)
    ensures Below(r, b)
    ensures r == [] || r[0] != 0
    ensures r == [] <==> n == 0
  {
    if n == 0 then [] else Digits(n / b, b) + [n % b]
  }

  function Zeros(k: nat): seq<nat> { seq(k, _ => 0) }

  /** How many leading zeros. */
  function Lead(ds: seq<nat>): (k: nat)
    ensures k <= |ds|
    ensures k < |ds| ==> ds[k] != 0
    ensures ds[..k] == Zeros(k)
  {
    if ds == [] || ds[0] != 0 then 0
    else
      var k := 1 + Lead(ds[1..]);
      assert ds[..k] == [0] + ds[1..][..k - 1];
      k
  }

  /** A string of digits of one base as the same number in another, leading zeros kept one for
      one. */
  function Convert(ds: seq<nat>, from: nat, to: nat): seq<nat>
    requires IsBase(from) && IsBase(to)
  {
    Zeros(Lead(ds)) + Digits(Val(ds, from), to)
  }

  lemma ValDigits(n: nat, b: nat)
    requires IsBase(b)
    ensures Val(Digits(n, b), b) == n
  {
    if n != 0 {
      ValDigits(n / b, b);
      assert Digits(n, b)[..|Digits(n, b)| - 1] == Digits(n / b, b);
    }
  }

  lemma LastDigit(q: nat, d: nat, b: nat)
    requires IsBase(b) && d < b
    ensures (q * b + d) / b == q && (q * b + d) % b == d && q * b >= q
  {
    if b == 58 {
      assert (q * 58 + d) / 58 == q;
    } else {
      assert (q * 256 + d) / 256 == q;
    }
  }

  lemma DigitsStep(q: nat, d: nat, b: nat)
    requires IsBase(b) && d < b && (q > 0 || d > 0)
    ensures q * b + d > 0 && Digits(q * b + d, b) == Digits(q, b) + [d]
  {
    LastDigit(q, d, b);
  }

  lemma {:induction false} ValPositive(ds: seq<nat>, b: nat)
    requires IsBase(b) && ds != [] && ds[0] != 0
    ensures Val(ds, b) > 0
  {
    if |ds| > 1 {
      ValPositive(ds[..|ds| - 1], b);
      assert Val(ds[..|ds| - 1], b) * b > 0 by {
        if b == 58 { assert Val(ds[..|ds| - 1], b) * 58 > 0; } else { assert Val(ds[..|ds| - 1], b) * 256 > 0; }
      }
    }
  }

  lemma PutBack(init: seq<nat>, d: nat, b: nat)
    requires IsBase(b) && d < b && Digits(Val(init, b), b) == init && (Val(init, b) > 0 || d > 0)
    ensures Digits(Val(init + [d], b), b) == init + [d]
  {
    assert (init + [d])[..|init|] == init;
    DigitsStep(Val(init, b), d, b);
  }

  lemma {:induction false} DigitsVal(ds: seq<nat>, b: nat)
    requires IsBase(b) && Below(ds, b) && (ds == [] || ds[0] != 0)
    ensures Digits(Val(ds, b), b) == ds
  {
    if ds != [] {
      var init, d := ds[..|ds| - 1], ds[|ds| - 1];
      assert ds == init + [d];
      DigitsVal(init, b);
      if init != [] {
        ValPositive(init, b);
      }
      assert Below(init, b) && d < b;
      PutBack(init, d, b);
    }
  }

  lemma ValZeros(k: nat, ds: seq<nat>, b: nat)
    ensures Val(Zeros(k) + ds, b) == Val(ds, b)
    decreases |ds|, k
  {
    var all := Zeros(k) + ds;
    if ds != [] {
      assert all[..|all| - 1] == Zeros(k) + ds[..|ds| - 1];
      ValZeros(k, ds[..|ds| - 1], b);
    } else if k > 0 {
      assert all[..|all| - 1] == Zeros(k - 1) + [];
      ValZeros(k - 1, [], b);
    }
  }

  lemma LeadZeros(k: nat, ds: seq<nat>)
    requires ds == [] || ds[0] != 0
    ensures Lead(Zeros(k) + ds) == k
  {
    if k > 0 {
      assert (Zeros(k) + ds)[1..] == Zeros(k - 1) + ds;
      LeadZeros(k - 1, ds);
    } else {
      assert Zeros(0) + ds == ds;
    }
  }

  /** Converting there and back gives the digits back. */
  lemma {:induction false} ConvertBack(ds: seq<nat>, from: nat, to: nat)
    requires IsBase(from) && IsBase(to) && Below(ds, from)
    ensures Convert(Convert(ds, from, to), to, from) == ds
  {
    var k := Lead(ds);
    var m := ds[k..];
    assert ds == Zeros(k) + m;
    ValZeros(k, m, from);
    var out := Digits(Val(ds, from), to);
    LeadZeros(k, out);
    ValZeros(k, out, to);
    ValDigits(Val(ds, from), to);
    DigitsVal(m, from);
  }

  // ------------------------------------------------- little-endian buffers

  function Le(b: seq<nat>): nat {
    if b == [] then 0 else b[0] + 256 * Le(b[1..])
  }

  function Reversed(s: seq<nat>): (r: seq<nat>)
    ensures |r| == |s|
    ensures forall i :: 0 <= i < |s| ==> r[i] == s[|s| - 1 - i]
  {
    if s == [] then [] else Reversed(s[1..]) + [s[0]]
  }

  predicate NoZeroTop(b: seq<nat>) { b == [] || b[|b| - 1] != 0 }

  /** A buffer without a zero top byte, read from its top, is its number's digits. */
  lemma LeDigits(b: seq<nat>)
    requires NoZeroTop(b) && Below(b, 256)
    ensures Reversed(b) == Digits(Le(b), 256)
  {
    if b != [] {
      LeDigits(b[1..]);
      assert Le(b) / 256 == Le(b[1..]) && Le(b) % 256 == b[0];
      if b[1..] == [] {
        assert Le(b[1..]) == 0;
      } else {
        LePositive(b[1..]);
      }
    }
  }

  lemma LePositive(b: seq<nat>)
    requires b != [] && NoZeroTop(b)
    ensures Le(b) > 0
  {
    if |b| > 1 {
      LePositive(b[1..]);
    }
  }

  /** `58 * b + carry`, byte by byte from the lowest. */
  function MulAdd(b: seq<nat>, carry: nat): seq<nat>
    decreases |b|, carry
  {
    if b != [] then
      var t := carry + b[0] * 58;
      [t % 256] + MulAdd(b[1..], t / 256)
    else if carry == 0 then []
    else [carry % 256] + MulAdd([], carry / 256)
  }

  lemma MulAddMeans(b: seq<nat>, carry: nat)
    ensures Le(MulAdd(b, carry)) == 58 * Le(b) + carry
    ensures Below(MulAdd(b, carry), 256)
    decreases |b|, carry
  {
    if b != [] {
      MulAddMeans(b[1..], (carry + b[0] * 58) / 256);
    } else if carry != 0 {
      MulAddMeans([], carry / 256);
    }
  }

  lemma MulAddTop(b: seq<nat>, carry: nat)
    requires NoZeroTop(b)
    ensures NoZeroTop(MulAdd(b, carry)) && (b != [] || carry > 0 ==> MulAdd(b, carry) != [])
    decreases |b|, carry
  {
    if b != [] {
      var t := carry + b[0] * 58;
      MulAddTop(b[1..], t / 256);
      if MulAdd(b[1..], t / 256) == [] {
        assert b[1..] == [] && t / 256 == 0 && b[0] != 0;
      }
    } else if carry != 0 {
      MulAddTop([], carry / 256);
    }
  }
}
