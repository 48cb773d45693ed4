/** Integer `const` seeds of a legacy IDL (crates/solinv-static/src/legacy.rs, `const_bytes`):
    the bytes Anchor derives from, little-endian at the type's width. */
module Seeds {
  import opened Common
  import opened Decimals
  import opened Radix

  datatype Json = Number(text: string) | Text(text: string) | OtherJson

  const TWO128: nat := 0x1_0000_0000_0000_0000_0000_0000_0000_0000

  /** `text.parse::<i128>()` or `::<u128>()`. */
  function Parse(text: string, signed: bool): (r: Option<int>)
    ensures r.Some? ==> if signed then -(TWO128 / 2) <= r.value < TWO128 / 2 else 0 <= r.value < TWO128
  {
    match Written(text, signed)
    case Some(v) =>
      if signed then (if -(TWO128 / 2) <= v < TWO128 / 2 then Some(v) else None)
      else if v < TWO128 then Some(v) else None
    case None => None
  }

  predicate IsWidth(w: nat) { w == 1 || w == 2 || w == 4 || w == 8 || w == 16 }

  /** 256 to the `k`. */
  function Power(k: nat): (p: nat)
    ensures p > 0
  {
    if k == 0 then 1 else 256 * Power(k - 1)
  }

  function LeBytes(n: nat, k: nat): (b: seq<nat>)
    ensures |b| == k && Below(b, 256)
  {
    if k == 0 then [] else [n % 256] + LeBytes(n / 256, k - 1)
  }

  /** `1 << (8 * width - 1)`, the bound of a signed type. */
  function Half(width: nat): int { Power(width) / 2 }

  /** Two's complement at 128 bits. */
  function Wide(v: int): nat { v % TWO128 }

  /** The bytes of an integer seed, the low ones at 128 bits, when the value fits its type. */
  function IntSeed(value: Json, width: nat, signed: bool): Option<seq<nat>>
    requires IsWidth(width)
  {
    if value.OtherJson? then None
    else match Parse(value.text, signed)
      case None => None
      case Some(v) =>
        var fits := width == 16 || if signed then -Half(width) <= v < Half(width) else v < Power(width);
        if fits then Some(LeBytes(Wide(v), 16)[..width]) else None
  }

  predicate InRange(v: int, width: nat, signed: bool) {
    if signed then -Half(width) <= v < Half(width) else 0 <= v < Power(width)
  }

  /** The integer some bytes mean: zero- or sign-extended. */
  function Read(b: seq<nat>, signed: bool): int {
    if signed && Le(b) >= Half(|b|) then Le(b) - Power(|b|) else Le(b)
  }

  // ------------------------------------------------------------- the proof

  lemma Powers()
    ensures Power(1) == 0x100 && Power(2) == 0x1_0000 && Power(4) == 0x1_0000_0000
    ensures Power(8) == 0x1_0000_0000_0000_0000 && Power(16) == TWO128
  {
    assert Power(3) == 256 * Power(2) && Power(5) == 256 * Power(4) && Power(6) == 256 * Power(5) &&
        Power(7) == 256 * Power(6);
    assert Power(9) == 256 * Power(8) && Power(10) == 256 * Power(9) && Power(11) == 256 * Power(10) &&
        Power(12) == 256 * Power(11);
    assert Power(13) == 256 * Power(12) && Power(14) == 256 * Power(13) && Power(15) == 256 * Power(14) &&
        Power(16) == 256 * Power(15);
  }

  lemma Take(n: nat, k: nat, w: nat)
    requires w <= k
    ensures LeBytes(n, k)[..w] == LeBytes(n, w)
  {
    if w > 0 {
      Take(n / 256, k - 1, w - 1);
      assert LeBytes(n, k)[..w] == [n % 256] + LeBytes(n / 256, k - 1)[..w - 1];
    }
  }

  /** Bytes above the width do not matter. */
  lemma {:induction false} LowBytes(n: nat, m: nat, k: nat)
    ensures LeBytes(n + Power(k) * m, k) == LeBytes(n, k)
  {
    if k > 0 {
      var p: int, q: nat := Power(k - 1), Power(k - 1) * m;
      ThatMany(p, m);
      assert Power(k) * m == 256 * q;
      LowBytes(n / 256, m, k - 1);
      LowByte(n, q);
      hide Power;
      assert LeBytes(n + 256 * q, k) == [(n + 256 * q) % 256] + LeBytes((n + 256 * q) / 256, k - 1);
    }
  }

  lemma ThatMany(p: int, m: nat)
    ensures 256 * p * m == 256 * (p * m)
  {
  }

  lemma LowByte(n: nat, q: nat)
    ensures (n + 256 * q) % 256 == n % 256 && (n + 256 * q) / 256 == n / 256 + q
  {
  }

  lemma LeLeBytes(n: nat, k: nat)
    requires n < Power(k)
    ensures Le(LeBytes(n, k)) == n
  {
    if k > 0 {
      LeLeBytes(n / 256, k - 1);
      assert LeBytes(n, k)[1..] == LeBytes(n / 256, k - 1);
    }
  }

  lemma {:induction false} LeBytesStep(d: nat, n: nat, k: nat)
    requires d < 256
    ensures LeBytes(d + 256 * n, k + 1) == [d] + LeBytes(n, k)
  {
    assert (d + 256 * n) % 256 == d && (d + 256 * n) / 256 == n;
  }

  lemma {:induction false} LeBytesLe(b: seq<nat>)
    requires Below(b, 256)
    ensures LeBytes(Le(b), |b|) == b && Le(b) < Power(|b|)
  {
    if b != [] {
      var rest := b[1..];
      LeBytesLe(rest);
      LeBytesStep(b[0], Le(rest), |rest|);
      assert b == [b[0]] + rest;
    }
  }

  /** A negative value at 128 bits is its two's complement at the width, plus bytes above it. */
  lemma {:induction false} NegativeBytes(v: int, n: nat, width: nat)
    requires IsWidth(width) && -Half(width) <= v < 0 && n == v + Power(width)
    ensures LeBytes(Wide(v), 16)[..width] == LeBytes(n, width)
  {
    Powers();
    var p := Power(width);
    Take(Wide(v), 16, width);
    var m := if width == 1 then TWO128 / 0x100 - 1 else if width == 2 then TWO128 / 0x1_0000 - 1
             else if width == 4 then TWO128 / 0x1_0000_0000 - 1
                 else if width == 8 then TWO128 / 0x1_0000_0000_0000_0000 - 1 else 0;
    assert Wide(v) == v + TWO128 == n + p * m;
    hide LeBytes;
    LowBytes(n, m, width);
  }

  /** The low bytes of a value in range, at 128 bits, are the bytes that read back as it. */
  lemma {:induction false} LowBytesRead(v: int, width: nat, signed: bool)
    requires IsWidth(width) && InRange(v, width, signed)
    ensures var b := LeBytes(Wide(v), 16)[..width];
            |b| == width && Below(b, 256) && Read(b, signed) == v
  {
    Powers();
    hide LeBytes, Le;
    if v < 0 {
      NegativeBytes(v, v + Power(width), width);
      LeLeBytes(v + Power(width), width);
    } else {
      assert Wide(v) == v;
      Take(v, 16, width);
      LeLeBytes(v, width);
    }
  }

  lemma ReadInjective(a: seq<nat>, b: seq<nat>, signed: bool)
    requires |a| == |b| && Below(a, 256) && Below(b, 256) && Read(a, signed) == Read(b, signed)
    ensures a == b
  {
    LeBytesLe(a);
    LeBytesLe(b);
  }

  lemma {:induction false} Converts(value: Json, width: nat, signed: bool)
    requires IsWidth(width) && !value.OtherJson?
    ensures var v := Written(value.text, signed);
            IntSeed(value, width, signed) ==
              if v.Some? && InRange(v.value, width, signed)
              then Some(LeBytes(Wide(v.value), 16)[..width]) else None
  {
    Powers();
    var v := Written(value.text, signed);
    if v.Some? {
      assert InRange(v.value, width, signed) ==> Parse(value.text, signed) == v;
    }
  }

  /** A seed converts exactly when what is written is in its type's range, and to exactly the
      bytes of that width that mean it. */
  lemma {:induction false} IntSeedExact(value: Json, width: nat, signed: bool, b: seq<nat>)
    requires IsWidth(width) && !value.OtherJson?
    ensures IntSeed(value, width, signed) == Some(b) <==>
              var v := Written(value.text, signed);
              v.Some? && InRange(v.value, width, signed) && |b| == width && Below(b, 256) && Read(b, signed) == v.value
  {
    Converts(value, width, signed);
    var v := Written(value.text, signed);
    if v.Some? && InRange(v.value, width, signed) {
      LowBytesRead(v.value, width, signed);
      var c := IntSeed(value, width, signed).value;
      if |b| == width && Below(b, 256) && Read(b, signed) == v.value {
        ReadInjective(b, c, signed);
      }
    }
  }

  /** Two seeds of one type give the same bytes only when they are the same integer. */
  lemma IntSeedInjective(x: Json, y: Json, width: nat, signed: bool)
    requires IsWidth(width) && IntSeed(x, width, signed).Some?
    requires IntSeed(x, width, signed) == IntSeed(y, width, signed)
    ensures Written(x.text, signed) == Written(y.text, signed)
  {
    IntSeedExact(x, width, signed, IntSeed(x, width, signed).value);
    IntSeedExact(y, width, signed, IntSeed(y, width, signed).value);
  }
}
