/** Bytes, machine words and the vocabulary shared by every module. */
module Bytes {

  const U16: nat := 0x1_0000
  const U32: nat := 0x1_0000_0000
  const U64: nat := 0x1_0000_0000_0000_0000

  type byte = b: nat | b < 256
  type u16 = n: nat | n < U16
  type u32 = n: nat | n < U32
  type u64 = n: nat | n < U64

  /** A 32-byte key, digest or public key. */
  type Key32 = k: seq<byte> | |k| == 32 witness seq(32, _ => 0)

  /** The 12-byte nonce of either AEAD. */
  type Nonce = n: seq<byte> | |n| == 12 witness seq(12, _ => 0)

  datatype Option<+T> = None | Some(value: T)

  /** What a slice-indexing decoder can do: refuse, panic on an out-of-range
      slice, or return a value. */
  datatype Decoded<+T> = Rejected | Panicked | Parsed(value: T)

  /** The u64 that arithmetic with result n gives in a release build. */
  function Wrap64(n: int): u64 {
    n % 0x1_0000_0000_0000_0000
  }

  /** `n += 1` on a u32 in a release build. */
  function Next32(n: u32): u32 {
    (n + 1) % U32
  }
}

/** Big-endian positional notation in any base. */
module Positional {

  function Pow(base: nat, k: nat): nat {
    if k == 0 then 1 else base * Pow(base, k - 1)
  }

  lemma {:induction false} PowPositive(b: nat, i: nat)
    requires b > 0
    ensures Pow(b, i) > 0
  {
    if i > 0 { PowPositive(b, i - 1); }
  }

  /** The k low digits of n, most significant first. */
  function ToDigits(base: nat, n: nat, k: nat): (s: seq<nat>)
    requires base >= 2
    ensures |s| == k
    ensures forall i :: 0 <= i < |s| ==> s[i] < base
    decreases k
  {
    if k == 0 then [] else ToDigits(base, n / base, k - 1) + [n % base]
  }

  function FromDigits(base: nat, s: seq<nat>): nat {
    if s == [] then 0 else FromDigits(base, s[..|s| - 1]) * base + s[|s| - 1]
  }

  predicate AreDigits(base: nat, s: seq<nat>) {
    forall i :: 0 <= i < |s| ==> s[i] < base
  }

  lemma MulMono(x: nat, y: nat, k: nat)
    requires x <= y
    ensures x * k <= y * k
  {}

  lemma DivMod(base: nat, n: nat, p: nat) returns (q: nat, r: nat)
    requires base > 0 && n < base * p
    ensures q == n / base && r == n % base && n == q * base + r && q < p
  {
    q, r := n / base, n % base;
    assert n == q * base + r;
    if q >= p { MulMono(p, q, base); }
  }

  lemma DivModUnique(base: nat, q: nat, r: nat)
    requires r < base
    ensures (q * base + r) / base == q && (q * base + r) % base == r
  {
    var n := q * base + r;
    var t := n / base;
    assert n == t * base + n % base;
    if t < q {
      MulMono(t + 1, q, base);
    } else if t > q {
      MulMono(q + 1, t, base);
    }
  }

  lemma ModShift(base: nat, q: nat, x: nat)
    requires base > 0
    ensures (q * base + x) % base == x % base
  {
    var t, r := x / base, x % base;
    assert q * base + x == (q + t) * base + r;
    DivModUnique(base, q + t, r);
  }

  lemma BelowPow(base: nat, n: nat, d: nat, p: nat)
    requires d < base && n < p
    ensures n * base + d < base * p
  {
    MulMono(n + 1, p, base);
  }

  lemma FromDigitsSnoc(base: nat, s: seq<nat>, q: nat, d: nat)
    requires FromDigits(base, s) == q
    ensures FromDigits(base, s + [d]) == q * base + d
  {}

  /** Reading back what was written gives the number, when it fits. */
  lemma {:induction false} DecodeEncode(base: nat, n: nat, k: nat)
    requires base >= 2 && n < Pow(base, k)
    ensures FromDigits(base, ToDigits(base, n, k)) == n
    decreases k
  {
    if k > 0 {
      var q, r := DivMod(base, n, Pow(base, k - 1));
      DecodeEncode(base, q, k - 1);
      FromDigitsSnoc(base, ToDigits(base, q, k - 1), q, r);
    }
  }

  /** Writing back what was read gives the digits, and the number fits. */
  lemma {:induction false} EncodeDecode(base: nat, s: seq<nat>)
    requires base >= 2 && AreDigits(base, s)
    ensures ToDigits(base, FromDigits(base, s), |s|) == s
    ensures FromDigits(base, s) < Pow(base, |s|)
  {
    if s != [] {
      var t, d := s[..|s| - 1], s[|s| - 1];
      var n := FromDigits(base, t);
      EncodeDecode(base, t);
      assert s == t + [d];
      assert FromDigits(base, s) == n * base + d;
      DivModUnique(base, n, d);
      BelowPow(base, n, d, Pow(base, |t|));
    }
  }
}

/** `to_be_bytes` and `from_be_bytes`. */
module BigEndian {
  import opened Bytes
  import opened Positional

  function Encode(n: nat, width: nat): (s: seq<byte>)
    ensures |s| == width
  {
    ToDigits(256, n, width)
  }

  function Decode(s: seq<byte>): nat {
    FromDigits(256, s)
  }

  lemma Widths()
    ensures Pow(256, 2) == U16 && Pow(256, 4) == U32 && Pow(256, 8) == U64
  {}

  lemma RoundTrip(n: nat, width: nat)
    requires n < Pow(256, width)
    ensures Decode(Encode(n, width)) == n
  {
    DecodeEncode(256, n, width);
  }

  lemma RoundTripBytes(s: seq<byte>)
    ensures Encode(Decode(s), |s|) == s && Decode(s) < Pow(256, |s|)
  {
    EncodeDecode(256, s);
  }
}
