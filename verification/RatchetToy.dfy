/** A toy instance of the primitives: the laws assumed of them are consistent. */
module RatchetToy {
  import opened Bytes
  import opened BigEndian
  import opened Positional
  import opened Ratchet
  import opened RatchetChain
  import opened RatchetSystem
  import opened RatchetAsWritten
  import opened RatchetDelivery

  function AddBytes(x: byte, y: byte): byte { (x + y) % 256 }

  function Tagged(tag: byte, k: Key32): Key32 { [tag] + k[1..] }

  function Sum(x: Key32, y: Key32): Key32 {
    seq(32, i requires 0 <= i < 32 => AddBytes(x[i], y[i]))
  }

  function CountUp(k: Key32): Key32 {
    k[..31] + [AddBytes(k[31], 1)]
  }

  function Modulus(width: nat): (m: nat)
    ensures m > 0
  {
    PowPositive(256, width);
    Pow(256, width)
  }

  /** A byte string as a number, counted up by one. */
  function Next(d: seq<byte>): (e: seq<byte>)
    ensures |e| == |d|
  {
    Encode((Decode(d) + 1) % Modulus(|d|), |d|)
  }

  function Counted(d: seq<byte>, n: nat): (e: seq<byte>)
    ensures |e| == |d|
  {
    if n == 0 then d else Next(Counted(d, n - 1))
  }

  function StepChain(k: Key32): Key32 {
    [k[0]] + Next(k[1..])
  }

  function OpenPrefixed(k: Key32, n: Nonce, ct: seq<byte>): Option<seq<byte>> {
    if |ct| >= 44 && ct[..32] == k && ct[32..44] == n then Some(ct[44..]) else None
  }

  /** DH adds byte by byte, a root step counts in the last byte, the two halves of a root
      differ in their first byte, a chain counts in the others, and sealing prepends key and
      nonce. */
  function Toy(): Primitives {
    Primitives(
      (x: Key32) => x,
      (x: Key32, y: Key32) => Sum(x, y),
      (k: Key32, d: Key32) => CountUp(k),
      (k: Key32) => (Tagged(0, k), Tagged(1, k)),
      (k: Key32) => (k, seq(12, _ => 0), StepChain(k)),
      (su: CipherSuite, k: Key32, n: Nonce, p: seq<byte>) => k + n + p,
      (su: CipherSuite, k: Key32, n: Nonce, ct: seq<byte>) => OpenPrefixed(k, n, ct))
  }

  lemma {:induction false} ModulusMono(i: nat, j: nat)
    requires i <= j
    ensures Modulus(i) <= Modulus(j)
    decreases j
  {
    if i < j { ModulusMono(i, j - 1); }
  }

  lemma CountedOn(d: nat, n: nat, m: nat)
    requires m > 0
    ensures ((d + n) % m + 1) % m == (d + n + 1) % m
  {
    var q, r := (d + n) / m, (d + n) % m;
    assert d + n + 1 == q * m + (r + 1);
    ModShift(m, q, r + 1);
  }

  lemma Small(d: nat, m: nat)
    requires d < m
    ensures d % m == d
  {}

  lemma {:induction false} CountedIs(d: seq<byte>, n: nat)
    ensures Decode(Counted(d, n)) == (Decode(d) + n) % Modulus(|d|)
    decreases n
  {
    var m := Modulus(|d|);
    if n > 0 {
      CountedIs(d, n - 1);
      CountedOn(Decode(d), n - 1, m);
      RoundTrip((Decode(Counted(d, n - 1)) + 1) % m, |d|);
    } else {
      RoundTripBytes(d);
      Small(Decode(d), m);
    }
  }

  lemma QuotientGap(p: nat, q: nat, m: nat)
    requires p * m < q * m
    ensures q * m >= p * m + m
  {
    if q <= p { MulMono(q, p, m); } else { MulMono(p + 1, q, m); }
  }

  lemma FewApart(d: nat, i: nat, j: nat, m: nat)
    requires i < j < i + m
    ensures (d + i) % m != (d + j) % m
  {
    var p, q := (d + i) / m, (d + j) / m;
    assert d + i == p * m + (d + i) % m && d + j == q * m + (d + j) % m;
    if (d + i) % m == (d + j) % m { QuotientGap(p, q, m); }
  }

  lemma CountedDistinct(d: seq<byte>, i: u32, j: u32)
    requires |d| >= 4 && i < j
    ensures Counted(d, i) != Counted(d, j)
  {
    Widths();
    ModulusMono(4, |d|);
    CountedIs(d, i);
    CountedIs(d, j);
    FewApart(Decode(d), i, j, Modulus(|d|));
  }

  lemma {:induction false} ToyChainCounts(k: Key32, n: nat)
    ensures Toy().Advance(k, n) == [k[0]] + Counted(k[1..], n)
    decreases n
  {
    if n > 0 {
      ToyChainCounts(k, n - 1);
      assert ([k[0]] + Counted(k[1..], n - 1))[1..] == Counted(k[1..], n - 1);
    } else {
      assert k == [k[0]] + k[1..];
    }
  }

  lemma ToyChainKeysDistinct(x: Key32, i: u32, j: u32)
    requires i < j
    ensures Toy().MessageKeyOf(Toy().Advance(x, i)) != Toy().MessageKeyOf(Toy().Advance(x, j))
  {
    ToyChainCounts(x, i);
    ToyChainCounts(x, j);
    CountedDistinct(x[1..], i, j);
    assert Toy().Advance(x, i)[1..] == Counted(x[1..], i);
    assert Toy().Advance(x, j)[1..] == Counted(x[1..], j);
  }

  lemma ToySeals(su: CipherSuite, k: Key32, n: Nonce, p: seq<byte>, l: Key32, m: Nonce)
    ensures Toy().open(su, k, n, Toy().seal(su, k, n, p)) == Some(p)
    ensures Toy().open(su, l, m, Toy().seal(su, k, n, p)).Some? ==> l == k && m == n
  {}

  lemma ToyRootStep(k: Key32, l: Key32)
    ensures CountUp(k) != k && CountUp(k)[0] == k[0]
    ensures CountUp(k) == CountUp(l) ==> k == l
  {
    assert CountUp(k)[31] == AddBytes(k[31], 1) && CountUp(k)[..31] == k[..31];
    assert CountUp(l)[31] == AddBytes(l[31], 1) && CountUp(l)[..31] == l[..31];
    assert k == k[..31] + [k[31]] && l == l[..31] + [l[31]];
  }

  lemma ToyHalves(x: Key32, i: nat, y: Key32, j: nat)
    ensures RecvKey(Toy(), x, i) != Toy().MessageKeyOf(Toy().Advance(Toy().SendHalf(y), j))
  {
    ToyChainCounts(Toy().RecvHalf(x), i);
    ToyChainCounts(Toy().SendHalf(y), j);
    assert Toy().RecvHalf(x)[0] == 1 && Toy().SendHalf(y)[0] == 0;
  }

  /** The laws of DH and AEAD, of all keys and messages. */
  lemma BasicLaws()
    ensures DhCommutes(Toy()) && OpenInvertsSeal(Toy())
  {
    var c := Toy();
    forall x, y ensures c.dh(x, c.public(y)) == c.dh(y, c.public(x)) {
      assert Sum(x, y) == Sum(y, x);
    }
    forall su, k, n, p ensures c.open(su, k, n, c.seal(su, k, n, p)) == Some(p) {
      ToySeals(su, k, n, p, k, n);
    }
  }

  /** The laws of one chain. */
  lemma ChainLaws(seed: Key32, fs: seq<Flight>)
    requires forall f :: f in fs ==> SealedIn(Toy(), seed, f)
    ensures ChainKeysDistinct(Toy(), seed) && OwnKeyOnly(Toy(), seed, fs)
  {
    var c := Toy();
    forall i: u32, j: u32 | i < j
      ensures c.MessageKeyOf(c.Advance(seed, i)) != c.MessageKeyOf(c.Advance(seed, j))
    {
      ToyChainKeysDistinct(seed, i, j);
    }
    forall f, j: u32
      | f in fs && c.Unseal(f.msg.suite, c.MessageKeyOf(c.Advance(seed, j)), f.msg.ciphertext).Some?
      ensures c.MessageKeyOf(c.Advance(seed, j)) == c.MessageKeyOf(c.Advance(seed, f.msg.header.number))
    {
      OpensUnder(f.msg.suite, c.MessageKeyOf(c.Advance(seed, f.msg.header.number)), f.plain,
                 c.MessageKeyOf(c.Advance(seed, j)));
    }
  }

  lemma OpensUnder(su: CipherSuite, own: MessageKey, p: seq<byte>, tried: MessageKey)
    requires own.number == tried.number
    requires Toy().Unseal(su, tried, Toy().seal(su, own.key, own.nonce, p)).Some?
    ensures tried == own
  {
    ToySeals(su, own.key, own.nonce, p, tried.key, tried.nonce);
  }

  /** The laws of any run of the code as written. */
  lemma RunLaws(v: Variant, s0: System, es: seq<Event>)
    requires !v.senderHalf && Silent(Toy(), s0)
    ensures KeysSeparate(Toy(), v, s0, es)
  {
    var c, s := Toy(), Run(Toy(), v, s0, es);
    RunTraced(c, v, s0, es);
    forall x, y, i: nat, j: nat ensures RecvKey(c, x, i) != c.MessageKeyOf(c.Advance(c.SendHalf(y), j)) {
      ToyHalves(x, i, y, j);
    }
    forall t, x, i: nat | t in s.sent && c.Unseal(t.msg.suite, RecvKey(c, x, i), t.msg.ciphertext).Some?
      ensures RecvKey(c, x, i) == t.Key(c)
    {
      assert Sealed(c, t);
      OpensUnder(t.msg.suite, t.Key(c), t.plain, RecvKey(c, x, i));
    }
  }

  /** The laws of any root steps, and of a first message, between roots of equal first byte. */
  lemma RootLaws(roots: set<Key32>, outputs: set<Key32>, t: Transit, root: Key32)
    requires Sealed(Toy(), t) && t.Number() == 0 && root[0] == t.root[0]
    ensures RootStepSeparates(Toy(), roots, outputs) && FirstKeySeparates(Toy(), t, root)
  {
    forall k, l ensures CountUp(k) != k && (CountUp(k) == CountUp(l) ==> k == l) {
      ToyRootStep(k, l);
    }
    var c := Toy();
    var key := c.MessageKeyOf(c.Advance(c.SendHalf(root), 0));
    if c.Unseal(t.msg.suite, key, t.msg.ciphertext).Some? {
      OpensUnder(t.msg.suite, t.Key(c), t.plain, key);
    }
    assert c.SendHalf(root)[1..] == root[1..] && c.SendHalf(t.root)[1..] == t.root[1..];
    assert root == [root[0]] + root[1..] && t.root == [t.root[0]] + t.root[1..];
  }
}
