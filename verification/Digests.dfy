/** The FNV-1a digest that tells a stale mutant from a current one
    (crates/solinv-mutate/src/mutant.rs). Arithmetic is on 64-bit words that wrap. */
module Digests {
  import opened Common

  type Text = seq<byte>

  const WORD: int := 0x1_0000_0000_0000_0000
  type word = x: int | 0 <= x < 0x1_0000_0000_0000_0000

  const OFFSET: word := 0xcbf2_9ce4_8422_2325
  const PRIME: int := 0x0000_0100_0000_01b3
  /** The inverse of `PRIME` modulo 2^64, and how often the product wraps. */
  const INVERSE: int := 0xce96_5057_aff6_957b
  const WRAPS: int := 0xce_9650_590f

  /** Bit by bit, the lowest last. */
  function Xor(a: nat, b: nat): nat {
    if a == 0 && b == 0 then 0 else 2 * Xor(a / 2, b / 2) + if a % 2 == b % 2 then 0 else 1
  }

  function Pow2(k: nat): nat { if k == 0 then 1 else 2 * Pow2(k - 1) }

  lemma {:induction false} XorBelow(a: nat, b: nat, k: nat)
    requires a < Pow2(k) && b < Pow2(k)
    ensures Xor(a, b) < Pow2(k)
  {
    if k > 0 && (a > 0 || b > 0) { XorBelow(a / 2, b / 2, k - 1); }
  }

  lemma WordPow()
    ensures Pow2(64) == WORD
  {
    assert Pow2(8) == 0x100;
    assert Pow2(16) == 0x1_0000;
    assert Pow2(24) == 0x100_0000;
    assert Pow2(32) == 0x1_0000_0000;
    assert Pow2(40) == 0x100_0000_0000;
    assert Pow2(48) == 0x1_0000_0000_0000;
    assert Pow2(56) == 0x100_0000_0000_0000;
  }

  function XorWord(h: word, b: byte): word {
    WordPow();
    XorBelow(h, b, 64);
    Xor(h, b)
  }

  function TimesPrime(h: word): word { h * PRIME % WORD }

  function Step(h: word, b: byte): word { TimesPrime(XorWord(h, b)) }

  /** The state that `b` leads to `h` from. */
  function StepBack(h: word, b: byte): word { XorWord(h * INVERSE % WORD, b) }

  /** The state after the first `k` bytes. */
  function Hash(bytes: Text, k: nat): word
    requires k <= |bytes|
  {
    if k == 0 then OFFSET else Step(Hash(bytes, k - 1), bytes[k - 1])
  }

  function HexDigit(n: nat): char
    requires n < 16
  {
    if n < 10 then ('0' as int + n) as char else ('a' as int + (n - 10)) as char
  }

  /** The last `width` hexadecimal digits of a number, the highest first. */
  function Hex(n: nat, width: nat): (r: string)
    ensures |r| == width
  {
    if width == 0 then "" else Hex(n / 16, width - 1) + [HexDigit(n % 16)]
  }

  /** As wide as a word is padded to. */
  const PADDING := "0000000000000000"

  function DigestOf(bytes: Text): string { Hex(Hash(bytes, |bytes|), |PADDING|) }

  method Digest(bytes: Text) returns (r: string)
    ensures r == DigestOf(bytes)
  {
    var h: word := 0xcbf2_9ce4_8422_2325;
    for k := 0 to |bytes|
      invariant h == Hash(bytes, k)
    {
      h := XorWord(h, bytes[k]);
      h := h * 0x0000_0100_0000_01b3 % 0x1_0000_0000_0000_0000;
    }
    r := Hex(h, |PADDING|);
  }

  lemma XorStep(a: nat, b: nat, x: nat)
    requires x == Xor(a, b)
    ensures x / 2 == Xor(a / 2, b / 2) && (x % 2 == 0 <==> a % 2 == b % 2)
  {
    var q, r := Xor(a / 2, b / 2), if a % 2 == b % 2 then 0 else 1;
    assert x == 2 * q + r;
  }

  lemma HalvesSame(x: nat, y: nat)
    requires x / 2 == y / 2 && (x % 2 == 0 <==> y % 2 == 0)
    ensures x == y
  {
  }

  lemma {:induction false} XorTwice(a: nat, b: nat, x: nat, y: nat)
    requires x == Xor(a, b) && y == Xor(x, b)
    ensures y == a
    decreases a + b
  {
    if a + b > 0 {
      XorStep(a, b, x);
      XorStep(x, b, y);
      XorTwice(a / 2, b / 2, x / 2, y / 2);
      HalvesSame(y, a);
    }
  }

  lemma XorBack(h: word, b: byte)
    ensures XorWord(XorWord(h, b), b) == h
  {
    var x := XorWord(h, b);
    XorTwice(h, b, x, XorWord(x, b));
  }

  lemma {:induction false} XorTells(h: nat, a: nat, b: nat, x: nat)
    requires x == Xor(h, a) == Xor(h, b)
    ensures a == b
    decreases h + a + b
  {
    if h + a + b > 0 {
      XorStep(h, a, x);
      XorStep(h, b, x);
      XorTells(h / 2, a / 2, b / 2, x / 2);
      HalvesSame(a, b);
    }
  }

  lemma Wrapped(x: word, k: int)
    ensures (x + k * WORD) % WORD == x
  {
  }

  lemma PrimeBack(x: word)
    ensures TimesPrime(x) * INVERSE % WORD == x
  {
    var q := x * PRIME / WORD;
    assert TimesPrime(x) == x * PRIME - q * WORD;
    assert TimesPrime(x) * INVERSE == x + (x * WRAPS - q * INVERSE) * WORD;
    Wrapped(x, x * WRAPS - q * INVERSE);
  }

  lemma PrimeForth(x: word)
    ensures TimesPrime(x * INVERSE % WORD) == x
  {
    var q := x * INVERSE / WORD;
    assert x * INVERSE % WORD == x * INVERSE - q * WORD;
    assert (x * INVERSE % WORD) * PRIME == x + (x * WRAPS - q * PRIME) * WORD;
    Wrapped(x, x * WRAPS - q * PRIME);
  }

  /** For a byte, the step is a bijection of the states. */
  lemma StepBijective(h: word, b: byte)
    ensures StepBack(Step(h, b), b) == h
    ensures Step(StepBack(h, b), b) == h
  {
    PrimeBack(XorWord(h, b));
    XorBack(h, b);
    XorBack(h * INVERSE % WORD, b);
    PrimeForth(h);
  }

  /** From one state, different bytes lead to different states. */
  lemma StepTellsBytes(h: word, a: byte, b: byte)
    requires Step(h, a) == Step(h, b)
    ensures a == b
  {
    PrimeBack(XorWord(h, a));
    PrimeBack(XorWord(h, b));
    XorTells(h, a, b, XorWord(h, a));
  }

  /** A common tail neither hides a difference of state nor makes one. */
  lemma {:induction false} TailKeeps(x: Text, y: Text, i: nat, k: nat)
    requires i <= k <= |x| == |y| && x[i..k] == y[i..k]
    ensures Hash(x, k) == Hash(y, k) <==> Hash(x, i) == Hash(y, i)
  {
    if i < k {
      assert x[k - 1] == x[i..k][k - 1 - i] && y[k - 1] == y[i..k][k - 1 - i];
      assert x[i..k - 1] == x[i..k][..k - 1 - i] && y[i..k - 1] == y[i..k][..k - 1 - i];
      TailKeeps(x, y, i, k - 1);
      StepBijective(Hash(x, k - 1), x[k - 1]);
      StepBijective(Hash(y, k - 1), x[k - 1]);
    }
  }

  lemma {:induction false} HeadKeeps(x: Text, y: Text, k: nat)
    requires k <= |x| && k <= |y| && x[..k] == y[..k]
    ensures Hash(x, k) == Hash(y, k)
  {
    if k > 0 {
      assert x[k - 1] == x[..k][k - 1] && y[k - 1] == y[..k][k - 1];
      assert x[..k - 1] == x[..k][..k - 1] && y[..k - 1] == y[..k][..k - 1];
      HeadKeeps(x, y, k - 1);
    }
  }

  lemma HexDigitTells(m: nat, n: nat)
    requires m < 16 && n < 16 && HexDigit(m) == HexDigit(n)
    ensures m == n
  {
  }

  lemma SixteenthsSame(m: nat, n: nat)
    requires m / 16 == n / 16 && m % 16 == n % 16
    ensures m == n
  {
  }

  lemma HexStep(m: nat, n: nat, width: nat)
    requires width > 0 && Hex(m, width) == Hex(n, width)
    ensures Hex(m / 16, width - 1) == Hex(n / 16, width - 1) && m % 16 == n % 16
  {
    var a, b := Hex(m, width), Hex(n, width);
    assert a[..width - 1] == Hex(m / 16, width - 1) && b[..width - 1] == Hex(n / 16, width - 1);
    assert a[width - 1] == HexDigit(m % 16) && b[width - 1] == HexDigit(n % 16);
    HexDigitTells(m % 16, n % 16);
  }

  lemma {:induction false} HexInjective(m: nat, n: nat, width: nat)
    requires Hex(m, width) == Hex(n, width) && m < Pow16(width) && n < Pow16(width)
    ensures m == n
  {
    if width > 0 {
      HexStep(m, n, width);
      HexInjective(m / 16, n / 16, width - 1);
      SixteenthsSame(m, n);
    }
  }

  function Pow16(k: nat): nat { if k == 0 then 1 else 16 * Pow16(k - 1) }

  /** Two files of one length that differ in one byte have different digests. */
  lemma OneByteTold(x: Text, y: Text, i: nat)
    requires i < |x| == |y| && x[i] != y[i] && x[..i] == y[..i] && x[i + 1..] == y[i + 1..]
    ensures DigestOf(x) != DigestOf(y)
  {
    HeadKeeps(x, y, i);
    if Hash(x, i + 1) == Hash(y, i + 1) {
      StepTellsBytes(Hash(x, i), x[i], y[i]);
      assert false;
    }
    assert x[i + 1..|x|] == x[i + 1..] && y[i + 1..|x|] == y[i + 1..];
    TailKeeps(x, y, i + 1, |x|);
    if DigestOf(x) == DigestOf(y) {
      assert |PADDING| == 16;
      assert Pow16(16) == WORD by { assert Pow16(8) == 0x1_0000_0000; }
      HexInjective(Hash(x, |x|), Hash(y, |y|), |PADDING|);
      assert false;
    }
  }

  // --------------------------------------------------------- known digests

  /** Bits above those of `y` are left as they are. */
  lemma {:induction false} XorSplit(q: nat, x: nat, y: nat, k: nat)
    requires x < Pow2(k) && y < Pow2(k)
    ensures Xor(Pow2(k) * q + x, y) == Pow2(k) * q + Xor(x, y)
  {
    if k == 0 {
      XorZero(q);
    } else {
      var p: nat := Pow2(k - 1) * q;
      assert Pow2(k) * q == 2 * p by { Doubled(Pow2(k - 1), q); }
      assert (2 * p + x) / 2 == p + x / 2 && (2 * p + x) % 2 == x % 2;
      XorSplit(q, x / 2, y / 2, k - 1);
      hide Pow2;
    }
  }

  lemma Doubled(p: int, q: int)
    ensures 2 * p * q == 2 * (p * q)
  {
  }

  lemma XorZero(q: nat)
    ensures Xor(q, 0) == q
  {
  }

  /** Four more digits. */
  lemma {:induction false} HexFour(n: nat, width: nat, text: string, a: nat, b: nat, c: nat, d: nat)
    requires a < 16 && b < 16 && c < 16 && d < 16
    requires text == [HexDigit(a), HexDigit(b), HexDigit(c), HexDigit(d)]
    ensures Hex((((n * 16 + a) * 16 + b) * 16 + c) * 16 + d, width + 4) == Hex(n, width) + text
  {
    HexMore(n, width, a);
    HexMore(n * 16 + a, width + 1, b);
    HexMore((n * 16 + a) * 16 + b, width + 2, c);
    HexMore(((n * 16 + a) * 16 + b) * 16 + c, width + 3, d);
    hide Hex, HexDigit;
  }

  lemma {:induction false} HexMore(n: nat, width: nat, d: nat)
    requires d < 16
    ensures Hex(n * 16 + d, width + 1) == Hex(n, width) + [HexDigit(d)]
  {
    assert (n * 16 + d) / 16 == n && (n * 16 + d) % 16 == d;
  }

  lemma {:induction false} FirstState()
    ensures Step(OFFSET, 0x61) == 0xaf63_dc4c_8601_ec8c
  {
    assert Pow2(8) == 256;
    XorSplit(0xcb_f29c_e484_2223, 0x25, 0x61, 8);
    assert Xor(1, 3) == 2 && Xor(2, 6) == 4 && Xor(4, 12) == 8 && Xor(9, 24) == 17 && Xor(18, 48) == 34;
    assert Xor(0x25, 0x61) == 0x44;
    assert XorWord(OFFSET, 0x61) == 0xcbf2_9ce4_8422_2344;
  }

  lemma {:induction false} EmptyHex()
    ensures Hex(0xcbf2_9ce4_8422_2325, 16) == "cbf29ce484222325"
  {
    hide Hex;
    NoHex();
    HexFour(0, 0, "cbf2", 0xc, 0xb, 0xf, 0x2);
    HexFour(0xcbf2, 4, "9ce4", 0x9, 0xc, 0xe, 0x4);
    HexFour(0xcbf2_9ce4, 8, "8422", 0x8, 0x4, 0x2, 0x2);
    HexFour(0xcbf2_9ce4_8422, 12, "2325", 0x2, 0x3, 0x2, 0x5);
    FourTexts("cbf2", "9ce4", "8422", "2325");
  }

  lemma {:induction false} FirstHex()
    ensures Hex(0xaf63_dc4c_8601_ec8c, 16) == "af63dc4c8601ec8c"
  {
    hide Hex;
    NoHex();
    HexFour(0, 0, "af63", 0xa, 0xf, 0x6, 0x3);
    HexFour(0xaf63, 4, "dc4c", 0xd, 0xc, 0x4, 0xc);
    HexFour(0xaf63_dc4c, 8, "8601", 0x8, 0x6, 0x0, 0x1);
    HexFour(0xaf63_dc4c_8601, 12, "ec8c", 0xe, 0xc, 0x8, 0xc);
    FourTexts("af63", "dc4c", "8601", "ec8c");
  }

  lemma NoHex()
    ensures Hex(0, 0) == ""
  {
  }

  lemma FourTexts(a: string, b: string, c: string, d: string)
    requires |a| == |b| == |c| == |d| == 4
    ensures "" + a + b + c + d == [a[0], a[1], a[2], a[3], b[0], b[1], b[2], b[3]] +
                                  [c[0], c[1], c[2], c[3], d[0], d[1], d[2], d[3]]
  {
  }

  /** The digests of no bytes and of `a`, as the algorithm's authors give them. */
  lemma {:induction false} KnownDigests()
    ensures DigestOf([]) == "cbf29ce484222325" && DigestOf([0x61]) == "af63dc4c8601ec8c"
  {
    hide Hex, Step;
    EmptyHex();
    FirstHex();
    FirstState();
    assert Hash([], 0) == OFFSET;
    assert Hash([0x61], 1) == Step(Hash([0x61], 0), 0x61);
  }
}
