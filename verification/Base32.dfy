/** The base-32 encoder behind zero ids: its streaming loop, and the number it spells. */
module Base32 {
  import opened Bytes
  import opened Positional

  const ALPHABET: string := "ABCDEFGHJKLMNPQRSTUVWXYZ23456789"

  function Pow2(k: nat): (p: nat)
    ensures p > 0
  {
    PowPositive(2, k);
    Pow(2, k)
  }

  // ------------------------------------------------------------------
  // The streaming loop, at a given integer width
  // ------------------------------------------------------------------

  /** The loop's variables: `value` wraps at 2^w and is never masked. */
  datatype Acc = Acc(value: nat, bits: nat, out: seq<nat>)

  /** The highest five of the low `bits` bits. */
  function TopFive(value: nat, bits: nat): (d: nat)
    requires bits >= 5
    ensures d < 32
  {
    value / Pow2(bits - 5) % 32
  }

  /** The inner loop: write five bits at a time. */
  function Drain(a: Acc): Acc
    decreases a.bits
  {
    if a.bits >= 5 then
      Drain(a.(bits := a.bits - 5, out := a.out + [TopFive(a.value, a.bits)]))
    else a
  }

  function Shift(w: nat, a: Acc, b: byte): Acc {
    a.(value := (a.value * 256 + b) % Pow2(w), bits := a.bits + 8)
  }

  function Feed(w: nat, bytes: seq<byte>): Acc {
    if bytes == [] then Acc(0, 0, [])
    else Drain(Shift(w, Feed(w, bytes[..|bytes| - 1]), bytes[|bytes| - 1]))
  }

  /** The last, partial digit. */
  function Flush(w: nat, a: Acc): seq<nat> {
    if 0 < a.bits < 5 then a.out + [a.value * Pow2(5 - a.bits) % Pow2(w) % 32] else a.out
  }

  function Stream(w: nat, bytes: seq<byte>): seq<nat> {
    Flush(w, Feed(w, bytes))
  }

  // ------------------------------------------------------------------
  // The number it spells
  // ------------------------------------------------------------------

  function DigitCount(n: nat): (d: nat)
    ensures 8 * n <= 5 * d < 8 * n + 5
  {
    (8 * n + 4) / 5
  }

  /** The number of the bytes, padded right to d base-32 digits. */
  function Padded(bytes: seq<byte>, d: nat): nat
    requires 5 * d >= 8 * |bytes|
  {
    FromDigits(256, bytes) * Pow2(5 * d - 8 * |bytes|)
  }

  /** The base-32 digits of the big-endian integer of the bytes, padded right with zero bits
      to ceil(8n/5) digits: the layout of section 6 of RFC 4648, without padding characters. */
  function Digits(bytes: seq<byte>): seq<nat> {
    var d := DigitCount(|bytes|);
    ToDigits(32, Padded(bytes, d), d)
  }

  // ------------------------------------------------------------------
  // Arithmetic
  // ------------------------------------------------------------------

  lemma {:induction false} PowAdd(b: nat, i: nat, j: nat)
    ensures Pow(b, i + j) == Pow(b, i) * Pow(b, j)
    decreases i
  {
    if i > 0 {
      PowAdd(b, i - 1, j);
      Associate(b, Pow(b, i - 1), Pow(b, j));
    }
  }

  lemma Associate(x: nat, y: nat, z: nat)
    ensures x * (y * z) == (x * y) * z
  {}

  lemma {:induction false} PowOfPow(k: nat, i: nat)
    ensures Pow(Pow(2, k), i) == Pow(2, k * i)
    decreases i
  {
    if i > 0 {
      PowOfPow(k, i - 1);
      PowAdd(2, k, k * (i - 1));
      assert k * i == k + k * (i - 1);
    }
  }

  lemma Thirtytwo()
    ensures Pow(2, 5) == 32 && Pow(2, 8) == 256
  {}

  lemma DivModOf(x: nat, big: nat) returns (q: nat)
    requires big > 0
    ensures x == q * big + x % big && q == x / big
  {
    q := x / big;
  }

  lemma Regroup(q: nat, m: nat, p: nat, t: nat, u: nat)
    ensures q * (32 * m * p) + (t * p + u) == (q * m * 32 + t) * p + u
  {
    assert q * (32 * m * p) == (q * m * 32) * p;
  }

  /** The quotient by p, of a number given in parts. */
  lemma DivOfParts(n: nat, q: nat, big: nat, m: nat, p: nat, t: nat, u: nat)
    requires p > 0 && u < p && big == 32 * m * p && n == q * big + (t * p + u)
    ensures n / p == q * m * 32 + t
  {
    Regroup(q, m, p, t, u);
    DivModUnique(p, q * m * 32 + t, u);
  }

  lemma LowDigitOf(n: nat, big: nat, m: nat, p: nat)
    requires p > 0 && big > 0 && big == 32 * m * p
    ensures n % big / p % 32 == n / p % 32
  {
    var q := DivModOf(n, big);
    var t := DivModOf(n % big, p);
    DivOfParts(n, q, big, m, p, t, n % big % p);
    ModShift(32, q * m, t);
  }

  /** Five bits of n above bit k, read off n modulo a power that covers them. */
  lemma LowDigit(n: nat, p: nat, m: nat)
    requires p > 0 && m > 0
    ensures 32 * m * p > 0 && n % (32 * m * p) / p % 32 == n / p % 32
  {
    assert 32 * m * p > 0;
    LowDigitOf(n, 32 * m * p, m, p);
  }

  lemma DivScaled(n: nat, p: nat, s: nat, b: nat)
    requires p > 0 && s > 0 && b < s
    ensures p * s > 0 && (n * s + b) / (p * s) == n / p
  {
    var t, u := n / p, n % p;
    assert n == t * p + u;
    assert n * s + b == t * (p * s) + (u * s + b) by { assert t * p * s == t * (p * s); }
    MulMono(u + 1, p, s);
    DivModUnique(p * s, t, u * s + b);
  }

  lemma DivTwice(n: nat, p: nat, s: nat)
    requires p > 0 && s > 0
    ensures p * s > 0 && n / p / s == n / (p * s)
  {
    var t, u := n / p, n % p;
    var y, z := t / s, t % s;
    assert n == t * p + u && t == y * s + z;
    assert n == y * (p * s) + (z * p + u) by { assert y * s * p == y * (p * s); }
    BelowPow(p, z, u, s);
    DivModUnique(p * s, y, z * p + u);
  }

  lemma ModScaled(n: nat, big: nat, s: nat, b: nat)
    requires big > 0
    ensures (n % big * s + b) % big == (n * s + b) % big
  {
    var q, r := n / big, n % big;
    assert n == q * big + r;
    assert n * s + b == (q * s) * big + (r * s + b);
    ModShift(big, q * s, r * s + b);
  }

  lemma DropMultiple(q: nat, m: nat, r: nat)
    ensures (q * (32 * m) + r) % 32 == r % 32
  {
    Associate(q, m, 32);
    ModShift(32, q * m, r);
  }

  lemma ModTwice(x: nat, m: nat)
    requires m > 0
    ensures 32 * m > 0 && x % (32 * m) % 32 == x % 32
  {
    assert 32 * m > 0;
    var q := DivModOf(x, 32 * m);
    DropMultiple(q, m, x % (32 * m));
  }

  // ------------------------------------------------------------------
  // The loop spells the number
  // ------------------------------------------------------------------

  /** After `len` bytes making the number n: `value` is n up to wrap-around, all but the last
      `bits` bits have been written, and what was written are their base-32 digits. */
  predicate Spells(w: nat, a: Acc, n: nat, len: nat) {
    && a.value == n % Pow2(w)
    && a.bits + 5 * |a.out| == 8 * len
    && a.out == ToDigits(32, n / Pow2(a.bits), |a.out|)
  }

  lemma Pow2Add(i: nat, j: nat)
    ensures Pow2(i + j) == Pow2(i) * Pow2(j)
  {
    PowAdd(2, i, j);
  }

  lemma WidthSplits(w: nat, k: nat) returns (m: nat)
    requires k + 5 <= w
    ensures m > 0 && Pow2(w) == 32 * m * Pow2(k)
  {
    m := Pow2(w - 5 - k);
    Pow2Add(k + 5, w - 5 - k);
    Pow2Add(k, 5);
    Thirtytwo();
    Rearrange(Pow2(k), m);
  }

  lemma Rearrange(p: nat, m: nat)
    ensures p * 32 * m == 32 * m * p
  {}

  lemma DrainOnce(w: nat, a: Acc, n: nat, len: nat)
    requires w >= 12 && 5 <= a.bits <= 12 && Spells(w, a, n, len)
    ensures Spells(w, a.(bits := a.bits - 5, out := a.out + [TopFive(a.value, a.bits)]), n, len)
  {
    var k, p := a.bits - 5, Pow2(a.bits - 5);
    var m := WidthSplits(w, k);
    LowDigit(n, p, m);
    Pow2Add(k, 5);
    Thirtytwo();
    DivTwice(n, p, 32);
  }

  lemma {:induction false} DrainSpells(w: nat, a: Acc, n: nat, len: nat)
    requires w >= 12 && a.bits <= 12 && Spells(w, a, n, len)
    ensures Drain(a).bits < 5 && Spells(w, Drain(a), n, len)
    decreases a.bits
  {
    if a.bits >= 5 {
      DrainOnce(w, a, n, len);
      DrainSpells(w, a.(bits := a.bits - 5, out := a.out + [TopFive(a.value, a.bits)]), n, len);
    }
  }

  lemma ShiftSpells(w: nat, a: Acc, n: nat, len: nat, b: byte)
    requires Spells(w, a, n, len)
    ensures Spells(w, Shift(w, a, b), n * 256 + b, len + 1)
  {
    ModScaled(n, Pow2(w), 256, b);
    Pow2Add(a.bits, 8);
    Thirtytwo();
    DivScaled(n, Pow2(a.bits), 256, b);
  }

  lemma {:induction false} FeedSpells(w: nat, bytes: seq<byte>)
    requires w >= 12
    ensures Feed(w, bytes).bits < 5 && Spells(w, Feed(w, bytes), FromDigits(256, bytes), |bytes|)
    decreases |bytes|
  {
    if bytes != [] {
      var front, b := bytes[..|bytes| - 1], bytes[|bytes| - 1];
      var n := FromDigits(256, front);
      FeedSpells(w, front);
      ShiftSpells(w, Feed(w, front), n, |front|, b);
      DrainSpells(w, Shift(w, Feed(w, front), b), n * 256 + b, |bytes|);
    } else {
      ModSmall(0, Pow2(w));
    }
  }

  lemma ModSmall(x: nat, m: nat)
    requires x < m
    ensures x % m == x
  {}

  lemma LastDigit(w: nat, value: nat, n: nat, s: nat)
    requires w >= 12 && value == n % Pow2(w)
    ensures value * s % Pow2(w) % 32 == n * s % 32
  {
    var m := WidthSplits(w, 0);
    ModTwice(value * s, m);
    ModTwice(n * s, m);
    ModScaled(n, Pow2(w), s, 0);
  }

  lemma FlushPartial(w: nat, a: Acc, n: nat, len: nat)
    requires w >= 12 && 0 < a.bits < 5 && Spells(w, a, n, len)
    ensures Flush(w, a) == ToDigits(32, n * Pow2(5 - a.bits), |a.out| + 1)
  {
    var s := Pow2(5 - a.bits);
    LastDigit(w, a.value, n, s);
    Pow2Add(a.bits, 5 - a.bits);
    Thirtytwo();
    DivScaled(n, Pow2(a.bits), s, 0);
    assert n * s / 32 == n / Pow2(a.bits);
  }

  lemma NoShift(n: nat)
    ensures n / Pow2(0) == n == n * Pow2(0)
  {}

  lemma DigitsAre(bytes: seq<byte>, d: nat)
    requires 8 * |bytes| <= 5 * d < 8 * |bytes| + 5
    ensures d == DigitCount(|bytes|) && Digits(bytes) == ToDigits(32, Padded(bytes, d), d)
  {}

  lemma WholeDigits(n: nat, out: seq<nat>, len: nat)
    requires 8 * len == 5 * |out| && out == ToDigits(32, n / Pow2(0), |out|)
    ensures out == ToDigits(32, n * Pow2(5 * |out| - 8 * len), |out|)
  {
    NoShift(n);
  }

  lemma DigitsPadded(bytes: seq<byte>, d: nat, k: nat, out: seq<nat>)
    requires 5 * d == 8 * |bytes| + k && k < 5
    requires out == ToDigits(32, FromDigits(256, bytes) * Pow2(k), d)
    ensures out == Digits(bytes)
  {
    PaddedBy(bytes, d, k);
    DigitsAre(bytes, d);
  }

  /** At any width of 12 bits or more the loop writes exactly the base-32 digits. */
  lemma StreamIsDigits(w: nat, bytes: seq<byte>)
    requires w >= 12
    ensures Stream(w, bytes) == Digits(bytes)
  {
    var a, n := Feed(w, bytes), FromDigits(256, bytes);
    FeedSpells(w, bytes);
    if a.bits > 0 {
      FlushPartial(w, a, n, |bytes|);
      DigitsPadded(bytes, |a.out| + 1, 5 - a.bits, Flush(w, a));
    } else {
      WholeDigits(n, a.out, |bytes|);
      DigitsAre(bytes, |a.out|);
    }
  }

  lemma PaddedBy(bytes: seq<byte>, d: nat, k: nat)
    requires 5 * d - 8 * |bytes| == k
    ensures Padded(bytes, d) == FromDigits(256, bytes) * Pow2(k)
  {}

  lemma {:induction false} DrainShape(a: Acc)
    ensures var d := Drain(a); d.value == a.value && d.bits < 5 && d.bits + 5 * |d.out| == a.bits + 5 * |a.out|
    decreases a.bits
  {
    if a.bits >= 5 { DrainShape(a.(bits := a.bits - 5, out := a.out + [TopFive(a.value, a.bits)])); }
  }

  /** At any width: the value is the number modulo 2^w, and the bits are accounted for. */
  lemma {:induction false} FeedShape(w: nat, bytes: seq<byte>)
    ensures var a := Feed(w, bytes);
      a.value == FromDigits(256, bytes) % Pow2(w) && a.bits < 5 && a.bits + 5 * |a.out| == 8 * |bytes|
    decreases |bytes|
  {
    if bytes != [] {
      var front, b := bytes[..|bytes| - 1], bytes[|bytes| - 1];
      FeedShape(w, front);
      ModScaled(FromDigits(256, front), Pow2(w), 256, b);
      DrainShape(Shift(w, Feed(w, front), b));
    } else {
      ModSmall(0, Pow2(w));
    }
  }

  lemma DrainZero(a: Acc)
    requires a.value == 0 && a.bits == 12 && |a.out| == 4
    ensures |Drain(a).out| == 6 && Drain(a).out[4] == 0 && Drain(a).bits == 2
  {
    var b := a.(bits := 7, out := a.out + [0 / Pow2(7) % 32]);
    assert 0 / Pow2(7) % 32 == 0 by { ZeroDiv(Pow2(7)); }
    assert Drain(a) == Drain(b);
    var d := b.(bits := 2, out := b.out + [0 / Pow2(2) % 32]);
    assert Drain(b) == Drain(d) == d;
  }

  lemma ZeroDiv(p: nat)
    requires p > 0
    ensures 0 / p % 32 == 0
  {}

  lemma MultipleVanishes(w: nat)
    requires w < 12
    ensures 8 % Pow2(w) * 256 % Pow2(w) == 0
  {
    Pow2Add(w, 11 - w);
    TwoTo11();
    ModScaled(8, Pow2(w), 256, 0);
    ModShift(Pow2(w), Pow2(11 - w), 0);
  }

  lemma TwoTo11()
    ensures Pow2(11) == 2048
  {}

  /** At a narrower width it does not: the bit above is lost before it is written. */
  lemma NarrowLosesABit(w: nat, bytes: seq<byte>)
    requires w < 12 && bytes == [0, 0, 8] + [0]
    ensures Stream(w, bytes) != Digits(bytes)
  {
    var three: seq<byte> := [0, 0, 8];
    assert bytes[..3] == three;
    Number008(three);
    FeedShape(w, three);
    MultipleVanishes(w);
    DrainZero(Shift(w, Feed(w, three), 0));
    assert Stream(w, bytes)[4] == 0;
    Digits0080(bytes);
  }

  lemma Number008(three: seq<nat>)
    requires three == [0, 0, 8]
    ensures FromDigits(256, three) == 8
  {
    assert three[..2] == [0, 0] && [0, 0][..1] == [0] && [0][..0] == [];
    assert FromDigits(256, [0, 0]) == 0;
  }

  lemma Digits0080(bytes: seq<byte>)
    requires bytes == [0, 0, 8] + [0]
    ensures |Digits(bytes)| == 7 && Digits(bytes)[4] == 16
  {
    assert bytes[..3] == [0, 0, 8];
    Number008([0, 0, 8]);
    DigitsAre(bytes, 7);
    assert Pow2(3) == 8;
    ThirdDigit();
  }

  lemma ThirdDigit()
    ensures ToDigits(32, 16384, 7)[4] == 16
  {}

  /** The never-masked `value` is harmless exactly when it is at least 12 bits wide. */
  lemma WidthIff(w: nat)
    ensures (forall bytes :: Stream(w, bytes) == Digits(bytes)) <==> w >= 12
  {
    if w >= 12 {
      forall bytes ensures Stream(w, bytes) == Digits(bytes) { StreamIsDigits(w, bytes); }
    } else {
      NarrowLosesABit(w, [0, 0, 8] + [0]);
    }
  }

  // ------------------------------------------------------------------
  // Decoding
  // ------------------------------------------------------------------

  /** The floor(5d/8) bytes of the number d digits spell, less its padding bits. */
  function DecodeDigits(digits: seq<nat>): seq<byte> {
    var d, n := |digits|, 5 * |digits| / 8;
    ToDigits(256, FromDigits(32, digits) / Pow2(5 * d - 8 * n), n)
  }

  lemma PowersOfTwo(n: nat, d: nat)
    ensures Pow(256, n) == Pow2(8 * n) && Pow(32, d) == Pow2(5 * d)
  {
    Thirtytwo();
    PowOfPow(8, n);
    PowOfPow(5, d);
  }

  lemma PowersMeet(n: nat, d: nat)
    requires 8 * n <= 5 * d
    ensures Pow(256, n) * Pow2(5 * d - 8 * n) == Pow(32, d)
  {
    PowersOfTwo(n, d);
    Pow2Add(8 * n, 5 * d - 8 * n);
  }

  lemma ScaledBelow(x: nat, p: nat, s: nat)
    requires x < p && s > 0
    ensures x * s < p * s
  {}

  lemma ScaleBack(x: nat, s: nat)
    requires s > 0
    ensures x * s / s == x
  {
    DivModUnique(s, x, 0);
  }

  /** Decoding inverts encoding, for every byte string. */
  lemma DecodeInvertsEncode(bytes: seq<byte>)
    ensures DecodeDigits(Digits(bytes)) == bytes
  {
    var n, d, x := |bytes|, DigitCount(|bytes|), FromDigits(256, bytes);
    var s := Pow2(5 * d - 8 * n);
    EncodeDecode(256, bytes);
    PowersMeet(n, d);
    ScaledBelow(x, Pow(256, n), s);
    DecodeEncode(32, x * s, d);
    ScaleBack(x, s);
  }

  // ------------------------------------------------------------------
  // The encoder
  // ------------------------------------------------------------------

  function Spelled(digits: seq<nat>): (s: string)
    requires AreDigits(32, digits)
    ensures |s| == |digits|
  {
    if digits == [] then "" else Spelled(digits[..|digits| - 1]) + [ALPHABET[digits[|digits| - 1]]]
  }

  lemma SpelledSnoc(digits: seq<nat>, d: nat)
    requires AreDigits(32, digits) && d < 32
    ensures Spelled(digits + [d]) == Spelled(digits) + [ALPHABET[d]]
  {}

  /** The inner loop of the encoder. */
  method WriteFives(value: nat, bits: nat, buffer: string, ghost out: seq<nat>)
    returns (rest: nat, written: string, ghost digits: seq<nat>)
    requires AreDigits(32, out) && buffer == Spelled(out)
    ensures rest < 5 && Drain(Acc(value, bits, out)) == Acc(value, rest, digits)
    ensures AreDigits(32, digits) && written == Spelled(digits)
  {
    rest, written, digits := bits, buffer, out;
    while rest >= 5
      invariant Drain(Acc(value, rest, digits)) == Drain(Acc(value, bits, out))
      invariant AreDigits(32, digits) && written == Spelled(digits)
    {
      var digit := TopFive(value, rest);
      SpelledSnoc(digits, digit);
      written := written + [ALPHABET[digit]];
      rest := rest - 5;
      digits := digits + [digit];
    }
  }

  /** `_base32Encode`, on integers of w bits. */
  method Base32Encode(w: nat, bytes: seq<byte>) returns (buffer: string)
    requires w >= 12
    ensures buffer == Spelled(Digits(bytes))
  {
    buffer := "";
    var bits: nat, value: nat := 0, 0;
    ghost var out: seq<nat> := [];
    for i := 0 to |bytes|
      invariant bits < 5 && Feed(w, bytes[..i]) == Acc(value, bits, out)
      invariant AreDigits(32, out) && buffer == Spelled(out)
    {
      assert bytes[..i + 1][..i] == bytes[..i];
      value := (value * 256 + bytes[i]) % Pow2(w);
      bits := bits + 8;
      assert Acc(value, bits, out) == Shift(w, Feed(w, bytes[..i]), bytes[i]);
      bits, buffer, out := WriteFives(value, bits, buffer, out);
    }
    assert bytes[..|bytes|] == bytes;
    StreamIsDigits(w, bytes);
    if bits > 0 {
      var digit := value * Pow2(5 - bits) % Pow2(w) % 32;
      assert Digits(bytes) == out + [digit];
      SpelledSnoc(out, digit);
      buffer := buffer + [ALPHABET[digit]];
    }
  }

  // ------------------------------------------------------------------
  // Injectivity
  // ------------------------------------------------------------------

  lemma SymbolCode(d: nat)
    requires d < 32
    ensures ALPHABET[d] as int == if d < 8 then 65 + d else if d < 13 then 66 + d else if d < 24 then 67 + d else 26 + d
  {}

  lemma SymbolsDistinct(d: nat, e: nat)
    requires d < 32 && e < 32 && ALPHABET[d] == ALPHABET[e]
    ensures d == e
  {
    SymbolCode(d);
    SymbolCode(e);
  }

  lemma {:induction false} SpelledInjective(s: seq<nat>, t: seq<nat>)
    requires AreDigits(32, s) && AreDigits(32, t) && Spelled(s) == Spelled(t)
    ensures s == t
    decreases |s|
  {
    if s != [] {
      var n := |s| - 1;
      var x, y := Spelled(s), Spelled(t);
      assert x[..n] == Spelled(s[..n]) && y[..n] == Spelled(t[..n]);
      assert x[n] == ALPHABET[s[n]] && y[n] == ALPHABET[t[n]];
      SymbolsDistinct(s[n], t[n]);
      SpelledInjective(s[..n], t[..n]);
      assert s == s[..n] + [s[n]] && t == t[..n] + [t[n]];
    }
  }

  /** Encoding loses nothing: distinct byte strings of any lengths have distinct encodings. */
  lemma EncodingInjective(x: seq<byte>, y: seq<byte>)
    requires Spelled(Digits(x)) == Spelled(Digits(y))
    ensures x == y
  {
    SpelledInjective(Digits(x), Digits(y));
    DecodeInvertsEncode(x);
    DecodeInvertsEncode(y);
  }

  // ------------------------------------------------------------------
  // Zero ids
  // ------------------------------------------------------------------

  /** `_deriveZeroId`, from the SHA-256 of the public key's hex string. */
  function ZeroId(hash: Key32): string {
    "Z" + Spelled(Digits(hash))[..9]
  }

  lemma {:induction false} SpelledPrefix(s: seq<nat>, k: nat)
    requires AreDigits(32, s) && k <= |s|
    ensures Spelled(s)[..k] == Spelled(s[..k])
    decreases |s|
  {
    if k < |s| {
      SpelledPrefix(s[..|s| - 1], k);
      assert s[..|s| - 1][..k] == s[..k];
    } else {
      assert s[..k] == s;
    }
  }

  /** The first k of d digits are the digits of the number without its d-k low ones. */
  lemma {:induction false} DigitsPrefix(b: nat, x: nat, d: nat, k: nat)
    requires b >= 2 && k <= d && Pow(b, d - k) > 0
    ensures ToDigits(b, x, d)[..k] == ToDigits(b, x / Pow(b, d - k), k)
    decreases d
  {
    if k < d {
      PowPositive(b, d - 1 - k);
      DigitsPrefix(b, x / b, d - 1, k);
      DivTwice(x, b, Pow(b, d - 1 - k));
      assert ToDigits(b, x, d)[..k] == ToDigits(b, x / b, d - 1)[..k];
    }
  }

  /** The number the 45 leading bits of a hash make. */
  function Leading45(hash: Key32): nat {
    FromDigits(256, hash) / Pow2(8 * |hash| - 45)
  }

  lemma Leading45Fits(hash: Key32)
    ensures Leading45(hash) < Pow(32, 9)
  {
    var n := |hash|;
    EncodeDecode(256, hash);
    PowersOfTwo(n, 9);
    Pow2Add(8 * n - 45, 45);
    QuotientBelow(FromDigits(256, hash), Pow2(8 * n - 45), Pow2(45));
  }

  /** Dropping the padding bits and all digits but nine leaves the leading 45 bits. */
  lemma DropLow(x: nat, n: nat, d: nat)
    requires 5 * d >= 8 * n >= 45
    ensures Pow(32, d - 9) > 0
    ensures x * Pow2(5 * d - 8 * n) / Pow(32, d - 9) == x / Pow2(8 * n - 45)
  {
    PowersOfTwo(n, d - 9);
    Pow2Add(8 * n - 45, 5 * d - 8 * n);
    DivScaled(x, Pow2(8 * n - 45), Pow2(5 * d - 8 * n), 0);
  }

  lemma ZeroIdDigits(hash: Key32)
    ensures Digits(hash)[..9] == ToDigits(32, Leading45(hash), 9)
  {
    var n, d, x := |hash|, DigitCount(|hash|), FromDigits(256, hash);
    DigitsAre(hash, d);
    DropLow(x, n, d);
    DigitsPrefix(32, x * Pow2(5 * d - 8 * n), d, 9);
  }

  /** A zero id is the letter Z and the nine base-32 letters of the 45 leading bits. */
  lemma ZeroIdSpells(hash: Key32)
    ensures |ZeroId(hash)| == 10 && ZeroId(hash)[0] == 'Z'
    ensures ZeroId(hash)[1..] == Spelled(ToDigits(32, Leading45(hash), 9))
  {
    ZeroIdDigits(hash);
    SpelledPrefix(Digits(hash), 9);
  }

  lemma QuotientBelow(x: nat, p: nat, q: nat)
    requires p > 0 && x < p * q
    ensures x / p < q
  {}

  /** Two hashes give the same zero id exactly when their 45 leading bits agree. */
  lemma ZeroIdIff(g: Key32, h: Key32)
    ensures ZeroId(g) == ZeroId(h) <==> Leading45(g) == Leading45(h)
  {
    ZeroIdSpells(g);
    ZeroIdSpells(h);
    if ZeroId(g) == ZeroId(h) {
      SpelledInjective(ToDigits(32, Leading45(g), 9), ToDigits(32, Leading45(h), 9));
      Leading45Fits(g);
      Leading45Fits(h);
      DecodeEncode(32, Leading45(g), 9);
      DecodeEncode(32, Leading45(h), 9);
    }
  }
}
