/** An instance of the primitives in which the group laws hold, and concrete histories. */
module GroupToy {
  import opened Bytes
  import opened BigEndian
  import opened Fields
  import opened GroupKeys
  import opened GroupSecrecy

  const NOBODY: Id := []
  const ADA: Id := [1]
  const BEN: Id := [2]

  function Padding(): seq<byte> { seq(26, _ => 0) }

  /** The digest tells a sender input of the group NOBODY by its member and epoch, and a ratchet
      input by the second byte of the previous key and the epoch. */
  function ToyDigest(s: seq<byte>): Key32 {
    if |s| == 29 then [1, s[24]] + s[25..29] + Padding()
    else if |s| >= 36 then [2, s[1]] + s[32..36] + Padding()
    else seq(32, _ => 0)
  }

  /** Sealing prepends the key. */
  function Toy(): Primitives {
    Primitives((s: seq<byte>) => ToyDigest(s), (k: Key32, n: Nonce, p: seq<byte>) => k + p,
               (k: Key32, n: Nonce, ct: seq<byte>) => if |ct| >= 32 && ct[..32] == k then Some(ct[32..]) else None)
  }

  lemma AeadLaws(keys: set<Key32>, plain: seq<byte>)
    ensures OpenInvertsSeal(Toy()) && OpensOnlyOwnKey(Toy(), keys, plain)
  {
    forall k: Key32, p: seq<byte> ensures (k + p)[..32] == k && (k + p)[32..] == p {}
  }

  function ToyKey(tag: byte, member: byte, epoch: u32): Key32 {
    [tag, member] + Encode(epoch, 4) + Padding()
  }

  lemma ToyKeysIff(t: byte, m: byte, e: u32, u: byte, l: byte, f: u32)
    ensures ToyKey(t, m, e) == ToyKey(u, l, f) <==> t == u && m == l && e == f
  {
    EncodeTells(e, f);
    assert ToyKey(t, m, e)[2..6] == Encode(e, 4) && ToyKey(u, l, f)[2..6] == Encode(f, 4);
    assert ToyKey(t, m, e)[0] == t && ToyKey(t, m, e)[1] == m && ToyKey(u, l, f)[0] == u && ToyKey(u, l, f)[1] == l;
  }

  lemma SenderDigest(member: byte, epoch: u32)
    ensures ToyDigest(SenderInput(NOBODY, [member], epoch)) == ToyKey(1, member, epoch)
  {
    var x := SenderInput(NOBODY, [member], epoch);
    SenderInputShape(NOBODY, [member], epoch);
    assert |x| == 29 && x[24] == member && x[25..29] == Encode(epoch, 4);
  }

  lemma RatchetDigest(previous: Key32, epoch: u32)
    ensures ToyDigest(RatchetInput(previous, epoch)) == ToyKey(2, previous[1], epoch)
  {
    var x := RatchetInput(previous, epoch);
    assert |Ascii("zero-group-ratchet")| == 18;
    assert |x| == 54 && x[1] == previous[1] && x[32..36] == Encode(epoch, 4);
  }

  lemma CurrentToyKey(creator: byte, n: nat)
    requires n < U32
    ensures KeyAfter(Toy(), NOBODY, [creator], n) == ToyKey(if n == 0 then 1 else 2, creator, n)
    decreases n
  {
    if n == 0 {
      SenderDigest(creator, n);
    } else {
      CurrentToyKey(creator, n - 1);
      RatchetDigest(KeyAfter(Toy(), NOBODY, [creator], n - 1), n);
      Whole(n);
    }
  }

  lemma Whole(n: nat)
    requires n < U32
    ensures n % U32 == n
  {}

  /** The inputs of one-byte members and their creators' ratchets, by tag, member and epoch. */
  function ToyInput(tag: byte, member: byte, epoch: u32): seq<byte> {
    if tag == 2 && epoch > 0 then RatchetInput(KeyAfter(Toy(), NOBODY, [member], epoch - 1), epoch)
    else SenderInput(NOBODY, [member], epoch)
  }

  ghost predicate IsToyInput(x: seq<byte>) {
    exists tag, member, epoch :: x == ToyInput(tag, member, epoch)
  }

  lemma RatchetedDigest(member: byte, epoch: u32)
    requires epoch > 0
    ensures ToyDigest(RatchetInput(KeyAfter(Toy(), NOBODY, [member], epoch - 1), epoch)) == ToyKey(2, member, epoch)
  {
    var previous := KeyAfter(Toy(), NOBODY, [member], epoch - 1);
    CurrentToyKey(member, epoch - 1);
    assert previous[1] == member;
    RatchetDigest(previous, epoch);
  }

  lemma ToyInputDigest(tag: byte, member: byte, epoch: u32)
    ensures ToyDigest(ToyInput(tag, member, epoch)) == ToyKey(if tag == 2 && epoch > 0 then 2 else 1, member, epoch)
  {
    if tag == 2 && epoch > 0 {
      RatchetedDigest(member, epoch);
    } else {
      SenderDigest(member, epoch);
    }
  }

  lemma ToyTells(x: seq<byte>, y: seq<byte>)
    requires IsToyInput(x) && IsToyInput(y) && ToyDigest(x) == ToyDigest(y)
    ensures x == y
  {
    var t, m, e :| x == ToyInput(t, m, e);
    var u, l, f :| y == ToyInput(u, l, f);
    ToyInputDigest(t, m, e);
    ToyInputDigest(u, l, f);
    ToyKeysIff(if t == 2 && e > 0 then 2 else 1, m, e, if u == 2 && f > 0 then 2 else 1, l, f);
  }

  lemma NotLabelled(x: seq<byte>)
    requires IsToyInput(x)
    ensures ToyDigest(x)[..24] != Label()
  {
    var t, m, e :| x == ToyInput(t, m, e);
    ToyInputDigest(t, m, e);
    assert ToyDigest(x)[..24][0] <= 2 && Label()[0] == 122;
  }

  lemma ToySeparates(inputs: set<seq<byte>>)
    requires forall x :: x in inputs ==> IsToyInput(x)
    ensures DigestSeparates(Toy(), inputs)
  {
    forall x, y | x in inputs && y in inputs && ToyDigest(x) == ToyDigest(y) ensures x == y {
      ToyTells(x, y);
    }
    forall x | x in inputs ensures ToyDigest(x)[..24] != Label() {
      NotLabelled(x);
    }
  }

  lemma LastInputToy(creator: byte, n: nat)
    requires n < U32
    ensures IsToyInput(LastInput(Toy(), NOBODY, [creator], n))
  {
    Whole(n);
    assert LastInput(Toy(), NOBODY, [creator], n) == ToyInput(2, creator, n);
  }

  /** The digest law holds of every two summaries of the group with one-byte names and fewer
      than 2^32 ratchets. */
  lemma DigestLaw(s: Summary, t: Summary)
    requires s.ratchets < U32 && t.ratchets < U32 && |s.creator| == |t.creator| == 1
    requires forall m :: m in s.members + t.members ==> |m| == 1
    ensures DigestSeparates(Toy(), InputsOf(Toy(), NOBODY, s) + InputsOf(Toy(), NOBODY, t))
  {
    InputsToy(s);
    InputsToy(t);
    ToySeparates(InputsOf(Toy(), NOBODY, s) + InputsOf(Toy(), NOBODY, t));
  }

  lemma InputsToy(s: Summary)
    requires s.ratchets < U32 && |s.creator| == 1 && forall m :: m in s.members ==> |m| == 1
    ensures forall x :: x in InputsOf(Toy(), NOBODY, s) ==> IsToyInput(x)
  {
    assert s.creator == [s.creator[0]];
    forall x | x in CurrentInputs(Toy(), NOBODY, s.creator, s.ratchets) ensures IsToyInput(x) {
      var i := WhichInput(Toy(), NOBODY, s.creator, s.ratchets, x);
      LastInputToy(s.creator[0], i);
    }
    forall m | m in s.members ensures IsToyInput(SenderInput(NOBODY, m, s.ratchets % U32)) {
      assert m == [m[0]] && SenderInput(NOBODY, m, s.ratchets % U32) == ToyInput(1, m[0], s.ratchets % U32);
    }
  }

  lemma FirstOf(op: Op)
    ensures Summarize([op], NOBODY) == if op.group == NOBODY then Extend(None, op) else None
  {
    assert [op][..0] == [];
  }

  lemma SecondOf(p: Op, q: Op)
    ensures Summarize([p, q], NOBODY) ==
      if q.group == NOBODY then Extend(Summarize([p], NOBODY), q) else Summarize([p], NOBODY)
  {
    assert [p, q][..1] == [p];
  }

  lemma Summaries()
    ensures Summarize([Create(NOBODY, ADA)], NOBODY) == Some(Summary(ADA, 0, {}))
    ensures Summarize([Create(NOBODY, ADA), Register(NOBODY, BEN)], NOBODY) == Some(Summary(ADA, 0, {BEN}))
    ensures Summarize([Create(NOBODY, ADA), Remove(NOBODY, BEN)], NOBODY) == Some(Summary(ADA, 1, {}))
  {
    FirstOf(Create(NOBODY, ADA));
    SecondOf(Create(NOBODY, ADA), Register(NOBODY, BEN));
    SecondOf(Create(NOBODY, ADA), Remove(NOBODY, BEN));
    assert {} + {BEN} == {BEN};
  }

  /** A replica that registered Ben seals for him what one that did not cannot open. */
  lemma BenMisunderstood(plain: seq<byte>)
    ensures var ops1, ops2 := [Create(NOBODY, ADA), Register(NOBODY, BEN)], [Create(NOBODY, ADA)];
      var sealed := Encrypt(Toy(), Run(Toy(), ops1), NOBODY, BEN, plain);
      && SameEpoch(ops1, ops2, NOBODY) && sealed.Ok?
      && Decrypt(Toy(), Run(Toy(), ops1), NOBODY, BEN, sealed.value) == Ok(plain)
      && Decrypt(Toy(), Run(Toy(), ops2), NOBODY, BEN, sealed.value) == DecryptFailed
  {
    var ops1, ops2 := [Create(NOBODY, ADA), Register(NOBODY, BEN)], [Create(NOBODY, ADA)];
    var s, t := Summary(ADA, 0, {BEN}), Summary(ADA, 0, {});
    Summaries();
    DigestLaw(s, t);
    DigestLaw(s, s);
    AeadLaws({HeldKey(Toy(), NOBODY, s, BEN), HeldKey(Toy(), NOBODY, t, BEN)}, plain);
    AeadLaws({HeldKey(Toy(), NOBODY, s, BEN), HeldKey(Toy(), NOBODY, s, BEN)}, plain);
    UnderstandsByName(Toy(), ops1, ops2, NOBODY, BEN, plain);
    UnderstandsByName(Toy(), ops1, ops1, NOBODY, BEN, plain);
    assert (NOBODY + BEN)[0] != (NOBODY + ADA)[0];
  }

  /** Ben, removed, cannot open what Ada seals afterwards, with the state he had before. */
  lemma BenLockedOut(plain: seq<byte>)
    ensures var before, after := [Create(NOBODY, ADA)], [Create(NOBODY, ADA), Remove(NOBODY, BEN)];
      var sealed := Encrypt(Toy(), Run(Toy(), after), NOBODY, ADA, plain);
      && sealed.Ok?
      && Decrypt(Toy(), Run(Toy(), after), NOBODY, ADA, sealed.value) == Ok(plain)
      && Decrypt(Toy(), Run(Toy(), before), NOBODY, ADA, sealed.value) == DecryptFailed
  {
    var before, after := [Create(NOBODY, ADA)], [Create(NOBODY, ADA), Remove(NOBODY, BEN)];
    var s, t := Summary(ADA, 1, {}), Summary(ADA, 0, {});
    Summaries();
    DigestLaw(s, t);
    DigestLaw(s, s);
    AeadLaws({HeldKey(Toy(), NOBODY, s, ADA), HeldKey(Toy(), NOBODY, t, ADA)}, plain);
    AeadLaws({HeldKey(Toy(), NOBODY, s, ADA), HeldKey(Toy(), NOBODY, s, ADA)}, plain);
    UnderstandsByName(Toy(), after, before, NOBODY, ADA, plain);
    UnderstandsByName(Toy(), after, after, NOBODY, ADA, plain);
  }
}
