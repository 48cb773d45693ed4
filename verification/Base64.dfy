/** Canonical base64 (crates/solinv-disclose/src/repro.rs): the codec of a carried payload, and
    what an artifact that is intact carries. Text is its bytes. */
module Base64 {
  import opened Common

  type Bytes = seq<byte>

  type sextet = n: int | 0 <= n < 64

  const PAD: byte := '=' as int

  /** The letter for six bits. */
  function Letter(n: sextet): byte {
    if n < 26 then 'A' as int + n
    else if n < 52 then 'a' as int + (n - 26)
    else if n < 62 then '0' as int + (n - 52)
    else if n == 62 then '+' as int
    else '/' as int
  }

  const UPPER: string := "ABCDEFGHIJKLMNOPQRSTUVWXYZ"
  const LOWER: string := "abcdefghijklmnopqrstuvwxyz"
  const REST: string := "0123456789+/"

  /** The encoder's table, written out, is `Letter`. */
  lemma TableIsLetter(n: sextet)
    ensures |UPPER + LOWER + REST| == 64 && (UPPER + LOWER + REST)[n] as int == Letter(n)
  {
    if n < 26 {
      assert (UPPER + LOWER + REST)[n] == UPPER[n];
    } else if n < 52 {
      assert (UPPER + LOWER + REST)[n] == LOWER[n - 26];
    } else {
      assert (UPPER + LOWER + REST)[n] == REST[n - 52];
    }
  }

  /** A letter's value. */
  function Sextet(c: byte): Option<sextet> {
    if 'A' as int <= c <= 'Z' as int then Some(c - 'A' as int)
    else if 'a' as int <= c <= 'z' as int then Some(c - 'a' as int + 26)
    else if '0' as int <= c <= '9' as int then Some(c - '0' as int + 52)
    else if c == '+' as int then Some(62)
    else if c == '/' as int then Some(63)
    else None
  }

  lemma LetterSextet(n: sextet)
    ensures Sextet(Letter(n)) == Some(n) && Letter(n) != PAD
  {
  }

  lemma SextetLetter(c: byte)
    requires Sextet(c).Some?
    ensures Letter(Sextet(c).value) == c && c != PAD
  {
  }

  // --------------------------------------------------------------- encoding

  /** One quantum of one to three bytes. */
  function Quad(c: Bytes): (q: Bytes)
    requires 1 <= |c| <= 3
    ensures |q| == 4
  {
    var n := Word(c);
    [Letter(n / 262144), Letter(n / 4096 % 64),
     if |c| > 1 then Letter(n / 64 % 64) else PAD,
     if |c| > 2 then Letter(n % 64) else PAD]
  }

  /** The bytes as the high end of 24 bits. */
  function Word(c: Bytes): (n: u32)
    requires 1 <= |c| <= 3
    ensures n < 0x100_0000
  {
    var b1: int, b2: int := if |c| > 1 then c[1] else 0, if |c| > 2 then c[2] else 0;
    (c[0] as int) * 65536 + b1 * 256 + b2
  }

  function Encode(b: Bytes): Bytes {
    if b == [] then []
    else if |b| <= 3 then Quad(b)
    else Quad(b[..3]) + Encode(b[3..])
  }

  method EncodeQuantum(c: Bytes) returns (q: Bytes)
    requires 1 <= |c| <= 3
    ensures q == Quad(c)
  {
    var b1: byte, b2: byte := if |c| > 1 then c[1] else 0, if |c| > 2 then c[2] else 0;
    var n: u32 := (c[0] as int) * 65536 + (b1 as int) * 256 + b2;
    assert n == Word(c);
    hide Word, Letter;
    TopSextet(n);
    var s0: sextet, s1: sextet, s2: sextet, s3: sextet := n / 262144 % 64, n / 4096 % 64, n / 64 % 64, n % 64;
    q := [Letter(s0), Letter(s1), if |c| > 1 then Letter(s2) else PAD, if |c| > 2 then Letter(s3) else PAD];
  }

  method B64(bytes: Bytes) returns (out: Bytes)
    ensures out == Encode(bytes)
  {
    out := [];
    var i := 0;
    while i < |bytes|
      invariant 0 <= i <= |bytes|
      invariant out + Encode(bytes[i..]) == Encode(bytes)
    {
      var c := bytes[i..if i + 3 <= |bytes| then i + 3 else |bytes|];
      var q := EncodeQuantum(c);
      assert |bytes[i..]| > 3 ==> bytes[i..][..3] == c && bytes[i..][3..] == bytes[i + |c|..];
      assert |bytes[i..]| <= 3 ==> bytes[i..] == c && bytes[i + |c|..] == [];
      assert out + Encode(bytes[i..]) == (out + q) + Encode(bytes[i + |c|..]);
      out := out + q;
      i := i + |c|;
    }
  }

  // --------------------------------------------------------------- decoding

  function Pads(chunk: Bytes): (n: nat)
    ensures n <= |chunk|
  {
    if chunk == [] then 0 else (if chunk[0] == PAD then 1 else 0) + Pads(chunk[1..])
  }

  /** The letters of a quantum, six bits each. */
  function Letters(cs: Bytes): Option<nat> {
    if cs == [] then Some(0)
    else
      var c := cs[|cs| - 1];
      match (Letters(cs[..|cs| - 1]), Sextet(c))
      case (Some(n), Some(v)) => Some(n * 64 + v)
      case _ => None
  }

  function Pow64(k: nat): nat { if k == 0 then 1 else 64 * Pow64(k - 1) }

  lemma LettersBound(cs: Bytes)
    ensures Letters(cs).Some? ==> Letters(cs).value < Pow64(|cs|)
  {
    if cs != [] {
      LettersBound(cs[..|cs| - 1]);
    }
  }

  /** The 24 bits of a quantum with `pad` padding characters. */
  function Shifted(n: nat, pad: nat): nat {
    if pad == 0 then n else if pad == 1 then n * 64 else n * 4096
  }

  /** One quantum decoded; `last`: it is the final one. */
  function Quantum(chunk: Bytes, last: bool): Option<Bytes>
    requires |chunk| == 4
  {
    var pad := Pads(chunk);
    if pad > 2 || (pad > 0 && !last) || PAD in chunk[..4 - pad] then None
    else match Letters(chunk[..4 - pad])
      case None => None
      case Some(m) =>
        var n := Shifted(m, pad);
        Some([n / 65536 % 256, n / 256 % 256, n % 256][..3 - pad])
  }

  /** What the quanta decode to, before the check that the text is canonical. */
  function Raw(text: Bytes): Option<Bytes>
    requires |text| % 4 == 0
  {
    if text == [] then Some([])
    else match (Quantum(text[..4], |text| == 4), Raw(text[4..]))
      case (Some(x), Some(rest)) => Some(x + rest)
      case _ => None
  }

  /** Decoding accepts canonical encodings only, and every one of them. */
  method B64Decode(text: Bytes) returns (r: Option<Bytes>)
    ensures forall x :: r == Some(x) <==> text == Encode(x)
  {
    EncodeShape(text);
    if |text| % 4 != 0 {
      return None;
    }
    r := RawDecode(text);
    if r.Some? {
      var again := B64(r.value);
      if again != text {
        r := None;
      }
    }
    forall x | text == Encode(x) ensures Raw(text) == Some(x) {
      RawEncode(x);
    }
  }

  method RawDecode(text: Bytes) returns (r: Option<Bytes>)
    requires |text| % 4 == 0
    ensures r == Raw(text)
  {
    hide Quantum;
    var last := if |text| >= 4 then |text| - 4 else 0;
    var out: Bytes, start := [], 0;
    assert text[0..] == text && (Raw(text).Some? ==> [] + Raw(text).value == Raw(text).value);
    while start < |text|
      invariant 0 <= start <= |text| && start % 4 == 0
      invariant Raw(text) == match Raw(text[start..]) case Some(rest) => Some(out + rest) case None => None
    {
      var chunk := text[start..start + 4];
      ghost var after := Raw(text[start + 4..]);
      assert text[start..][..4] == chunk && text[start..][4..] == text[start + 4..];
      var x := DecodeQuantum(chunk, start == last);
      if x.None? {
        return None;
      }
      assert after.Some? ==> out + (x.value + after.value) == (out + x.value) + after.value;
      out := out + x.value;
      start := start + 4;
    }
    assert out + [] == out;
    r := Some(out);
  }

  method DecodeQuantum(chunk: Bytes, last: bool) returns (r: Option<Bytes>)
    requires |chunk| == 4
    ensures r == Quantum(chunk, last)
  {
    var pad := CountPads(chunk);
    if pad > 2 || (pad > 0 && !last) || PAD in chunk[..4 - pad] {
      return None;
    }
    var m := ReadLetters(chunk[..4 - pad]);
    if m.None? {
      return None;
    }
    LettersBound(chunk[..4 - pad]);
    assert Pow64(2) == 4096 && Pow64(3) == 262144 && Pow64(4) == 16777216;
    var n: u32 := Shifted(m.value, pad);
    r := Some([n / 65536 % 256, n / 256 % 256, n % 256][..3 - pad]);
  }

  method CountPads(chunk: Bytes) returns (n: nat)
    ensures n == Pads(chunk)
  {
    n := 0;
    for k := 0 to |chunk|
      invariant Pads(chunk) == n + Pads(chunk[k..])
    {
      assert chunk[k..][0] == chunk[k] && chunk[k..][1..] == chunk[k + 1..];
      if chunk[k] == PAD {
        n := n + 1;
      }
    }
  }

  /** `n = (n << 6) | val(c)` over the letters, in 32 bits. */
  method ReadLetters(cs: Bytes) returns (r: Option<nat>)
    requires |cs| <= 4
    ensures r == Letters(cs)
  {
    var n: u32 := 0;
    for k := 0 to |cs|
      invariant Letters(cs[..k]) == Some(n)
    {
      assert cs[..k + 1][..k] == cs[..k];
      LettersBound(cs[..k]);
      assert Pow64(0) == 1 && Pow64(1) == 64 && Pow64(2) == 4096 && Pow64(3) == 262144;
      match Sextet(cs[k]) {
        case Some(v) => n := n * 64 + v;
        case None =>
          LettersPrefix(cs, k + 1);
          return None;
      }
    }
    assert cs[..|cs|] == cs;
    r := Some(n);
  }

  lemma LettersPrefix(cs: Bytes, k: nat)
    requires k <= |cs| && Letters(cs[..k]).None?
    ensures Letters(cs).None?
    decreases |cs| - k
  {
    if k < |cs| {
      assert cs[..k + 1][..k] == cs[..k];
      LettersPrefix(cs, k + 1);
    } else {
      assert cs[..k] == cs;
    }
  }

  // ------------------------------------------------------------- round trip

  lemma EncodeShape(text: Bytes)
    ensures |text| % 4 != 0 ==> forall x :: Encode(x) != text
  {
    forall x ensures |Encode(x)| % 4 == 0 {
      EncodeLength(x);
    }
  }

  lemma EncodeLength(b: Bytes)
    ensures |Encode(b)| % 4 == 0 && (b != [] ==> |Encode(b)| >= 4)
  {
  }

  lemma Letters4(a: byte, b: byte, c: byte, d: byte)
    ensures Letters([a, b]) == match (Sextet(a), Sextet(b))
      case (Some(x), Some(y)) => Some((x as int) * 64 + y)
      case _ => None
    ensures Letters([a, b, c]) == match (Letters([a, b]), Sextet(c))
      case (Some(n), Some(v)) => Some(n * 64 + v)
      case _ => None
    ensures Letters([a, b, c, d]) == match (Letters([a, b, c]), Sextet(d))
      case (Some(n), Some(v)) => Some(n * 64 + v)
      case _ => None
  {
    assert [a][..0] == [] && [a, b][..1] == [a] && [a, b, c][..2] == [a, b] && [a, b, c, d][..3] == [a, b, c];
    assert Letters([a]) == match Sextet(a) case Some(v) => Some(v) case None => None;
  }

  lemma Pads4(a: byte, b: byte, c: byte, d: byte)
    ensures Pads([a, b, c, d]) == (if a == PAD then 1 else 0) + (if b == PAD then 1 else 0) +
        (if c == PAD then 1 else 0) + (if d == PAD then 1 else 0)
  {
    assert [a, b, c, d][1..] == [b, c, d] && [b, c, d][1..] == [c, d] && [c, d][1..] == [d] && [d][1..] == [];
    assert Pads([d]) == if d == PAD then 1 else 0;
    assert Pads([c, d]) == (if c == PAD then 1 else 0) + Pads([d]);
    assert Pads([b, c, d]) == (if b == PAD then 1 else 0) + Pads([c, d]);
  }

  /** Four sextets as 24 bits. */
  function Join(s0: int, s1: int, s2: int, s3: int): int { s0 * 262144 + s1 * 4096 + s2 * 64 + s3 }

  lemma SplitWord(n: nat)
    requires n < 0x100_0000
    ensures 0 <= n / 262144 < 64 && n == Join(n / 262144, n / 4096 % 64, n / 64 % 64, n % 64)
  {
    var a, b, c := n / 64, n / 64 / 64, n / 64 / 64 / 64;
    Thrice(n, a, n % 64, b, a % 64, c, b % 64);
  }

  lemma Thrice(n: nat, a: nat, s3: sextet, b: nat, s2: sextet, c: nat, s1: sextet)
    requires n == a * 64 + s3 && a == b * 64 + s2 && b == c * 64 + s1
    ensures n / 64 == a && n / 4096 == b && n / 262144 == c
  {
  }

  lemma TopSextet(n: nat)
    requires n < 0x100_0000
    ensures 0 <= n / 262144 < 64 && n / 262144 % 64 == n / 262144
  {
  }

  lemma JoinSplits(s0: sextet, s1: sextet, s2: sextet, s3: sextet)
    ensures var n := Join(s0, s1, s2, s3);
            n / 262144 == s0 && n / 4096 % 64 == s1 && n / 64 % 64 == s2 && n % 64 == s3 && 0 <= n < 0x100_0000
  {
    var n := Join(s0, s1, s2, s3);
    assert n / 4096 == s0 * 64 + s1;
    assert n / 64 == s0 * 4096 + s1 * 64 + s2;
  }

  lemma WordBytes(b0: int, b1: int, b2: int)
    requires 0 <= b0 < 256 && 0 <= b1 < 256 && 0 <= b2 < 256
    ensures var n := b0 * 65536 + b1 * 256 + b2; n / 65536 % 256 == b0 && n / 256 % 256 == b1 && n % 256 == b2
  {
    var n := b0 * 65536 + b1 * 256 + b2;
    LowByte(b0 * 256 + b1, b2);
    LowByte(b0, b1);
    LowByte(0, b0);
    assert n == (b0 * 256 + b1) * 256 + b2 && n / 65536 == b0;
  }

  lemma LowByte(high: int, low: int)
    requires 0 <= low < 256
    ensures (high * 256 + low) / 256 == high && (high * 256 + low) % 256 == low
  {
  }

  /** What a quantum of letters and padding decodes to. */
  lemma QuantumOf(s0: sextet, s1: sextet, s2: sextet, s3: sextet, k: nat, last: bool)
    requires 1 <= k <= 3 && (k < 3 ==> last && s3 == 0) && (k < 2 ==> s2 == 0)
    ensures var q := [Letter(s0), Letter(s1), if k > 1 then Letter(s2) else PAD, if k > 2 then Letter(s3) else PAD];
            var n := Join(s0, s1, s2, s3);
            Quantum(q, last) == Some([n / 65536 % 256, n / 256 % 256, n % 256][..k])
  {
    var q := [Letter(s0), Letter(s1), if k > 1 then Letter(s2) else PAD, if k > 2 then Letter(s3) else PAD];
    LetterSextet(s0);
    LetterSextet(s1);
    LetterSextet(s2);
    LetterSextet(s3);
    hide Letter, Sextet, Letters, Pads;
    Pads4(q[0], q[1], q[2], q[3]);
    Letters4(q[0], q[1], q[2], q[3]);
    assert Pads(q) == 3 - k;
    assert q[..4] == q && q[..3] == [q[0], q[1], q[2]] && q[..2] == [q[0], q[1]];
    assert Letters(q[..1 + k]).Some?;
    assert Shifted(Letters(q[..1 + k]).value, 3 - k) == Join(s0, s1, s2, s3);
  }

  lemma {:induction false} QuadQuantum(c: Bytes, last: bool)
    requires 1 <= |c| <= 3 && (|c| < 3 ==> last)
    ensures Quantum(Quad(c), last) == Some(c)
  {
    var n := Word(c);
    SplitWord(n);
    WordLow(c);
    QuadLetters(c, n / 262144, n / 4096 % 64, n / 64 % 64, n % 64);
    JoinedQuantum(c, n / 262144, n / 4096 % 64, n / 64 % 64, n % 64, last);
  }

  lemma {:induction false} JoinedQuantum(c: Bytes, s0: sextet, s1: sextet, s2: sextet, s3: sextet, last: bool)
    requires 1 <= |c| <= 3 && (|c| < 3 ==> last && s3 == 0) && (|c| < 2 ==> s2 == 0) && Word(c) == Join(s0, s1, s2, s3)
    ensures Quantum([Letter(s0), Letter(s1), if |c| > 1 then Letter(s2) else PAD,
              if |c| > 2 then Letter(s3) else PAD], last)
            == Some(c)
  {
    WordBytes(c[0], if |c| > 1 then c[1] else 0, if |c| > 2 then c[2] else 0);
    var n := Word(c);
    FirstBytes(c, n / 65536 % 256, n / 256 % 256, n % 256);
    hide Quantum, Word, Letter, Join;
    QuantumOf(s0, s1, s2, s3, |c|, last);
  }

  lemma WordLow(c: Bytes)
    requires 1 <= |c| <= 3
    ensures |c| < 3 ==> Word(c) % 64 == 0
    ensures |c| < 2 ==> Word(c) / 64 % 64 == 0
  {
    if |c| == 1 {
      LowZero(c[0], 0);
    } else if |c| == 2 {
      LowZero(c[0], c[1]);
    }
  }

  lemma LowZero(b0: int, b1: int)
    requires 0 <= b0 < 256 && 0 <= b1 < 256
    ensures (b0 * 65536 + b1 * 256) % 64 == 0
    ensures b1 == 0 ==> (b0 * 65536 + b1 * 256) / 64 % 64 == 0
  {
    assert b0 * 65536 + b1 * 256 == 64 * (b0 * 1024 + b1 * 4);
    assert (b0 * 65536 + b1 * 256) / 64 == b0 * 1024 + b1 * 4;
  }

  lemma QuadLetters(c: Bytes, s0: sextet, s1: sextet, s2: sextet, s3: sextet)
    requires 1 <= |c| <= 3 && Word(c) / 262144 == s0 && Word(c) / 4096 % 64 == s1 && Word(c) / 64 % 64 == s2 &&
        Word(c) % 64 == s3
    ensures Quad(c) == [Letter(s0), Letter(s1), if |c| > 1 then Letter(s2) else PAD,
              if |c| > 2 then Letter(s3) else PAD]
  {
  }

  lemma FirstBytes(c: Bytes, x0: byte, x1: byte, x2: byte)
    requires 1 <= |c| <= 3 && c[0] == x0 && (|c| > 1 ==> c[1] == x1) && (|c| > 2 ==> c[2] == x2)
    ensures [x0, x1, x2][..|c|] == c
  {
  }

  /** Decoding undoes encoding. */
  lemma {:induction false} RawEncode(b: Bytes)
    ensures |Encode(b)| % 4 == 0 && Raw(Encode(b)) == Some(b)
  {
    EncodeLength(b);
    if b == [] {
    } else if |b| <= 3 {
      QuadQuantum(b, true);
      assert Encode(b) == Quad(b) && Encode(b)[..4] == Quad(b) && Encode(b)[4..] == [] && b + [] == b;
    } else {
      QuadQuantum(b[..3], false);
      RawEncode(b[3..]);
      EncodeLength(b[3..]);
      assert Encode(b)[..4] == Quad(b[..3]) && Encode(b)[4..] == Encode(b[3..]);
      assert b == b[..3] + b[3..];
    }
  }

  lemma EncodeInjective(x: Bytes, y: Bytes)
    requires Encode(x) == Encode(y)
    ensures x == y
  {
    RawEncode(x);
    RawEncode(y);
  }

  /** The bits of the last letter that no byte takes are zero. */
  predicate LowBitsZero(text: Bytes)
    requires text == [] || |text| >= 4
  {
    text == [] ||
    var q := text[|text| - 4..];
    && (q[2] == PAD ==> Sextet(q[1]).Some? && Sextet(q[1]).value % 16 == 0)
    && (q[2] != PAD && q[3] == PAD ==> Sextet(q[2]).Some? && Sextet(q[2]).value % 4 == 0)
  }

  /** A quantum that decodes is letters, then padding. */
  lemma QuantumShape(q: Bytes, last: bool) returns (s0: sextet, s1: sextet, s2: sextet, s3: sextet, k: nat)
    requires |q| == 4 && Quantum(q, last).Some?
    ensures 1 <= k <= 3 && (k < 3 ==> last && s3 == 0) && (k < 2 ==> s2 == 0)
    ensures q == [Letter(s0), Letter(s1), if k > 1 then Letter(s2) else PAD, if k > 2 then Letter(s3) else PAD]
  {
    var pad := Pads(q);
    assert q == [q[0], q[1], q[2], q[3]];
    Pads4(q[0], q[1], q[2], q[3]);
    Letters4(q[0], q[1], q[2], q[3]);
    var body := q[..4 - pad];
    assert q[..4] == q && q[..3] == [q[0], q[1], q[2]] && q[..2] == [q[0], q[1]];
    assert Letters(body).Some?;
    assert body[0] == q[0] && body[1] == q[1] && (pad < 2 ==> body[2] == q[2]) && (pad < 1 ==> body[3] == q[3]);
    assert q[0] != PAD && q[1] != PAD && (pad < 2 ==> q[2] != PAD) && (pad < 1 ==> q[3] != PAD);
    SextetLetter(q[0]);
    SextetLetter(q[1]);
    s0, s1, s2, s3, k := Sextet(q[0]).value, Sextet(q[1]).value, 0, 0, 3 - pad;
    if pad < 2 {
      SextetLetter(q[2]);
      s2 := Sextet(q[2]).value;
    }
    if pad < 1 {
      SextetLetter(q[3]);
      s3 := Sextet(q[3]).value;
    }
  }

  lemma {:induction false} QuantumQuad(q: Bytes, last: bool)
    requires |q| == 4 && Quantum(q, last).Some?
    ensures var x := Quantum(q, last).value;
            && 1 <= |x| <= 3 && (|x| < 3 ==> last)
            && (Quad(x) == q <==> LowBitsZero(q))
            && (|x| == 3 ==> q[2] != PAD && q[3] != PAD)
  {
    hide Quantum, Quad, Join, Letter, Letters, Pads, Sextet;
    var s0, s1, s2, s3, k := QuantumShape(q, last);
    QuantumOf(s0, s1, s2, s3, k, last);
    Rebuild(s0, s1, s2, s3, k, q);
    LetterSextet(s1);
    LetterSextet(s2);
    LetterSextet(s3);
    assert q[|q| - 4..] == q;
  }

  lemma LetterInjective(m: sextet, n: sextet)
    ensures Letter(m) == Letter(n) <==> m == n
  {
    LetterSextet(m);
    LetterSextet(n);
  }

  /** The bytes of 24 bits, the low `3 - k` of them dropped, as 24 bits again. */
  lemma Dropped(n: nat, k: nat)
    requires n < 0x100_0000 && 1 <= k <= 3
    ensures Word([n / 65536 % 256, n / 256 % 256, n % 256][..k]) == if k == 1 then n / 65536 * 65536
        else if k == 2 then n / 256 * 256 else n
  {
  }

  /** The first `k` bytes of four sextets, encoded again, are those sextets when the bits dropped
      were zero. */
  lemma {:induction false} Rebuild(s0: sextet, s1: sextet, s2: sextet, s3: sextet, k: nat, q: Bytes)
    requires 1 <= k <= 3 && (k < 3 ==> s3 == 0) && (k < 2 ==> s2 == 0)
    requires q == [Letter(s0), Letter(s1), if k > 1 then Letter(s2) else PAD, if k > 2 then Letter(s3) else PAD]
    ensures var n := Join(s0, s1, s2, s3);
            var x := [n / 65536 % 256, n / 256 % 256, n % 256][..k];
            Quad(x) == q <==> (if k == 1 then s1 % 16 == 0 else if k == 2 then s2 % 4 == 0 else true)
  {
    var n := Join(s0, s1, s2, s3);
    var x := [n / 65536 % 256, n / 256 % 256, n % 256][..k];
    var t1: sextet, t2: sextet := if k == 1 then s1 / 16 * 16 else s1, if k == 2 then s2 / 4 * 4 else s2;
    JoinSplits(s0, s1, s2, s3);
    Dropped(n, k);
    DroppedSextets(s0, s1, s2, s3, k);
    JoinSplits(s0, t1, t2, s3);
    QuadLetters(x, s0, t1, t2, s3);
    SameLetters(s0, s1, s2, s3, t1, t2, k, q, Quad(x));
  }

  lemma {:induction false} SameLetters(s0: sextet, s1: sextet, s2: sextet, s3: sextet, t1: sextet, t2: sextet, k: nat,
      q: Bytes, again: Bytes)
    requires 1 <= k <= 3
    requires t1 == (if k == 1 then s1 / 16 * 16 else s1) && t2 == (if k == 2 then s2 / 4 * 4 else s2)
    requires q == [Letter(s0), Letter(s1), if k > 1 then Letter(s2) else PAD, if k > 2 then Letter(s3) else PAD]
    requires again == [Letter(s0), Letter(t1), if k > 1 then Letter(t2) else PAD, if k > 2 then Letter(s3) else PAD]
    ensures again == q <==> (if k == 1 then s1 % 16 == 0 else if k == 2 then s2 % 4 == 0 else true)
  {
    hide Letter;
    LetterInjective(t1, s1);
    LetterInjective(t2, s2);
    if k == 1 {
      assert again[1] == q[1] <==> t1 == s1;
    } else if k == 2 {
      assert again[2] == q[2] <==> t2 == s2;
    }
  }

  lemma DroppedSextets(s0: sextet, s1: sextet, s2: sextet, s3: sextet, k: nat)
    requires 1 <= k <= 3 && (k < 3 ==> s3 == 0) && (k < 2 ==> s2 == 0)
    ensures var n := Join(s0, s1, s2, s3);
            (if k == 1 then n / 65536 * 65536 else if k == 2 then n / 256 * 256 else n)
            == Join(s0, if k == 1 then s1 / 16 * 16 else s1, if k == 2 then s2 / 4 * 4 else s2, s3)
  {
    var n := Join(s0, s1, s2, s3);
    if k == 1 {
      assert n / 65536 == s0 * 4 + s1 / 16;
    } else if k == 2 {
      assert n / 256 == s0 * 1024 + s1 * 16 + s2 / 4;
    }
  }

  lemma {:induction false} CanonicalStep(q: Bytes, rest: Bytes, x: Bytes, y: Bytes)
    requires |q| == 4 && |rest| >= 4 && |x| == 3 && y != []
    requires q[2] != PAD && q[3] != PAD && (Quad(x) == q <==> LowBitsZero(q))
    ensures (Encode(x + y) == q + rest <==> Encode(y) == rest) && (LowBitsZero(q + rest) <==> LowBitsZero(rest))
  {
    var text := q + rest;
    assert (x + y)[..3] == x && (x + y)[3..] == y;
    assert Encode(x + y) == Quad(x) + Encode(y);
    hide Encode, Quad;
    assert text[|text| - 4..] == rest[|rest| - 4..];
    assert LowBitsZero(q) by { assert q[0..] == q; }
    assert (q + Encode(y))[4..] == Encode(y) && text[4..] == rest;
  }

  /** What a text decodes to is its first quantum's bytes, then the rest's. */
  lemma {:induction false} RawParts(text: Bytes)
    requires |text| % 4 == 0 && text != [] && Raw(text).Some?
    ensures Quantum(text[..4], |text| == 4).Some? && Raw(text[4..]).Some?
    ensures Raw(text).value == Quantum(text[..4], |text| == 4).value + Raw(text[4..]).value
  {
    hide Quantum;
  }

  lemma {:induction false} CanonicalQuantum(q: Bytes)
    requires |q| == 4 && Raw(q).Some?
    ensures Encode(Raw(q).value) == q <==> LowBitsZero(q)
  {
    RawParts(q);
    assert q[..4] == q && Raw(q[4..]) == Some([]);
    hide Quantum, Quad, Raw, LowBitsZero;
    QuantumQuad(q, true);
    var x := Quantum(q, true).value;
    assert x + [] == x && Encode(x) == Quad(x);
  }

  lemma {:induction false} CanonicalMore(text: Bytes)
    requires |text| > 4 && |text| % 4 == 0 && Raw(text).Some? && Raw(text[4..]).Some?
    requires Encode(Raw(text[4..]).value) == text[4..] <==> LowBitsZero(text[4..])
    ensures Encode(Raw(text).value) == text <==> LowBitsZero(text)
  {
    hide *;
    RawParts(text);
    var q, rest := text[..4], text[4..];
    QuantumQuad(q, false);
    RestNonEmpty(rest);
    CanonicalStep(q, rest, Quantum(q, false).value, Raw(rest).value);
    assert text == q + rest;
  }

  /** Among texts that pass every other check, the final comparison rejects exactly those whose
      dropped bits are not zero. */
  lemma {:induction false} CanonicalExact(text: Bytes)
    requires |text| % 4 == 0 && Raw(text).Some?
    ensures Encode(Raw(text).value) == text <==> LowBitsZero(text)
  {
    if |text| > 4 {
      hide *;
      RawParts(text);
      CanonicalExact(text[4..]);
      CanonicalMore(text);
    } else if |text| == 4 {
      hide *;
      CanonicalQuantum(text);
    }
  }

  lemma RestNonEmpty(text: Bytes)
    requires |text| % 4 == 0 && text != [] && Raw(text).Some?
    ensures Raw(text).value != []
  {
    QuantumQuad(text[..4], |text| == 4);
  }

  // -------------------------------------------------------------- artifacts

  /** How an input is carried: named by its digest, or with its bytes. */
  datatype Artifact =
    | Digest(sha256: string, len: nat)
    | Inline(sha256: string, len: nat, base64: Bytes)

  ghost predicate Decodes(text: Bytes, x: Bytes) { text == Encode(x) }

  /** The carried bytes, when they are present and agree with the length and the hash claimed. */
  method CarriedBytes(a: Artifact, sha: Bytes -> string) returns (r: Option<Bytes>)
    ensures forall x :: r == Some(x) <==> a.Inline? && a.base64 == Encode(x) && a.len == |x| && a.sha256 == sha(x)
  {
    var intact := IsIntact(a, sha);
    if a.Digest? || !intact {
      return None;
    }
    r := B64Decode(a.base64);
    forall x | r == Some(x) ensures a.len == |x| && a.sha256 == sha(x) {
      var y :| Decodes(a.base64, y) && a.len == |y| && a.sha256 == sha(y);
      EncodeInjective(x, y);
    }
  }

  method IsIntact(a: Artifact, sha: Bytes -> string) returns (intact: bool)
    ensures intact <==> (a.Inline? ==> exists x :: Decodes(a.base64, x) && a.len == |x| && a.sha256 == sha(x))
  {
    if a.Digest? {
      return true;
    }
    var r := B64Decode(a.base64);
    if r.None? {
      assert forall x :: !Decodes(a.base64, x);
      return false;
    }
    assert Decodes(a.base64, r.value);
    intact := |r.value| == a.len && sha(r.value) == a.sha256;
    forall x | Decodes(a.base64, x) ensures x == r.value {
      EncodeInjective(x, r.value);
    }
  }
}
