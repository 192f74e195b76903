/** Concrete runs: the theorems are not vacuous, and the failures they speak of happen. */
module RatchetExamples {
  import opened Bytes
  import opened Ratchet
  import opened RatchetChain
  import opened RatchetSystem
  import opened RatchetAsWritten
  import opened RatchetDelivery
  import opened RatchetToy
  import RatchetParty

  function Key(n: byte): Key32 { [n] + seq(31, _ => 0) }

  /** Alice's secret is 1, Bob's is 2. */
  function Begin(): System {
    Start(Toy(), Key(0), Key(1), Key(2), Aes256Gcm, Aes256Gcm)
  }

  lemma BeginOk()
    ensures DhCommutes(Toy()) && OpenInvertsSeal(Toy())
    ensures Idle(Toy(), Begin()) && Silent(Toy(), Begin()) && Begin().used == {Key(1), Key(2)}
  {
    BasicLaws();
    StartIdle(Toy(), Key(0), Key(1), Key(2), Aes256Gcm, Aes256Gcm);
  }

  lemma NewKeys()
    ensures Toy().public(Key(3)) == Key(3) && Key(3) !in {Key(1), Key(2)}
    ensures Toy().public(Key(4)) == Key(4) && Key(4) !in {Key(1), Key(2)} + {Key(3)}
  {
    assert Key(1)[0] == 1 && Key(2)[0] == 2 && Key(3)[0] == 3 && Key(4)[0] == 4;
  }

  // ------------------------------------------------------------------
  // One message
  // ------------------------------------------------------------------

  lemma OneSend(c: Primitives, v: Variant, s0: System, plain: seq<byte>, newDh: Key32)
    requires Idle(c, s0) && c.public(newDh) !in s0.used
    ensures var es := [Send(Alice, plain, newDh)];
      Run(c, v, s0, es) == SendA(c, s0, plain, newDh) && RunEnabled(c, v, s0, es)
  {
    var e := Send(Alice, plain, newDh);
    RunSnoc(c, v, s0, [], e);
    assert [] + [e] == [e];
    assert Seat(s0, e) == s0 && Seat(SendA(c, s0, plain, newDh), e) == SendA(c, s0, plain, newDh);
  }

  /** Alice sends and Bob receives: nothing as written, the plaintext with the sender's half. */
  lemma FirstDelivery(v: Variant, plain: seq<byte>)
    ensures var es, e := [Send(Alice, plain, Key(3))], Deliver(Bob, 0, Key(4));
      var s := Run(Toy(), v, Begin(), es);
      && Idle(Toy(), Begin()) && RunEnabled(Toy(), v, Begin(), es) && Enabled(Toy(), v, s, e)
      && Decrypt(Toy(), v, s.b, s.ab[0].msg, Key(4)).1 == if v.senderHalf then Some(plain) else None
  {
    var es, e := [Send(Alice, plain, Key(3))], Deliver(Bob, 0, Key(4));
    BeginOk();
    NewKeys();
    FirstSent(Toy(), v, Begin(), plain, Key(3), Key(4));
    if !v.senderHalf { RunLaws(v, Begin(), es + [e]); }
    DeliveryIffSenderHalf(Toy(), v, Begin(), es, Bob, 0, Key(4));
  }

  lemma FirstSent(c: Primitives, v: Variant, s0: System, plain: seq<byte>, d: Key32, e: Key32)
    requires Idle(c, s0) && c.public(d) !in s0.used && c.public(e) !in s0.used + {c.public(d)}
    ensures var es := [Send(Alice, plain, d)];
      var s := Run(c, v, s0, es);
      && RunEnabled(c, v, s0, es) && Enabled(c, v, s, Deliver(Bob, 0, e))
      && |s.ab| == 1 && s.ab[0].plain == plain
  {
    OneSend(c, v, s0, plain, d);
  }

  // ------------------------------------------------------------------
  // A hundred messages without a reply
  // ------------------------------------------------------------------

  function Sends(n: nat, plain: seq<byte>, newDh: Key32): (es: seq<Event>)
    ensures |es| == n
  {
    if n == 0 then [] else Sends(n - 1, plain, newDh) + [Send(Alice, plain, newDh)]
  }

  /** Alice has sent n messages on one new chain, and nothing else has happened. */
  predicate Spoke(c: Primitives, s0: System, s: System, n: nat, newDh: Key32) {
    && s0.a.remote.Some? && s.a.sendChain.Some? && s.a.sendNumber == n
    && s.b == s0.b && s.used == s0.used + {c.public(newDh)} && s.a.remote == s0.a.remote
    && s.a.rootKey == c.kdfRk(s0.a.rootKey, c.dh(newDh, s0.a.remote.value))
  }

  lemma FirstSpoken(c: Primitives, s0: System, plain: seq<byte>, newDh: Key32)
    requires Idle(c, s0)
    ensures Spoke(c, s0, SendA(c, s0, plain, newDh), 1, newDh)
  {}

  lemma SpeaksOn(c: Primitives, v: Variant, s0: System, s: System, n: nat, plain: seq<byte>, newDh: Key32)
    requires Spoke(c, s0, s, n, newDh) && n < 100
    ensures Enabled(c, v, s, Send(Alice, plain, newDh))
    ensures Spoke(c, s0, Step(c, v, s, Send(Alice, plain, newDh)), n + 1, newDh)
  {}

  /** Up to a hundred sends are enabled, all on one chain; then the guard is met. */
  lemma {:induction false} SendsReach(c: Primitives, v: Variant, s0: System, n: nat, plain: seq<byte>, newDh: Key32)
    requires Idle(c, s0) && c.public(newDh) !in s0.used && 1 <= n <= 100
    ensures var es := Sends(n, plain, newDh);
      var s := Run(c, v, s0, es);
      RunEnabled(c, v, s0, es) && Spoke(c, s0, s, n, newDh) && (DrawsOnSend(s.a) <==> n == 100)
    decreases n
  {
    if n == 1 {
      assert Sends(1, plain, newDh) == [Send(Alice, plain, newDh)];
      OneSend(c, v, s0, plain, newDh);
      FirstSpoken(c, s0, plain, newDh);
    } else {
      var front := Sends(n - 1, plain, newDh);
      SendsReach(c, v, s0, n - 1, plain, newDh);
      RunSnoc(c, v, s0, front, Send(Alice, plain, newDh));
      SpeaksOn(c, v, s0, Run(c, v, s0, front), n - 1, plain, newDh);
    }
  }

  /** The run of a hundred sends, with the sender's half. */
  function Hundred(plain: seq<byte>): System {
    Run(Toy(), Variant(true, true), Begin(), Sends(100, plain, Key(3)))
  }

  lemma HundredOk(plain: seq<byte>)
    ensures RunEnabled(Toy(), Variant(true, true), Begin(), Sends(100, plain, Key(3)))
    ensures var s := Hundred(plain);
      && DrawsOnSend(s.a) && s.a.sendNumber == 100 && Key(4) !in s.used && s.a.remote.Some?
      && s.b == Begin().b && s.a.rootKey == CountUp(Begin().a.rootKey)
  {
    BeginOk();
    NewKeys();
    SendsReach(Toy(), Variant(true, true), Begin(), 100, plain, Key(3));
  }

  lemma HundredRoots(plain: seq<byte>)
    ensures Hundred(plain).a.rootKey[0] == Hundred(plain).b.rootKey[0]
  {
    HundredOk(plain);
    ToyRootStep(Begin().a.rootKey, Begin().a.rootKey);
  }

  lemma HundredLaws(plain: seq<byte>)
    ensures var s := Hundred(plain);
      var u := SendA(Toy(), s, plain, Key(4));
      && RootsSeparate(Toy(), s, Key(4))
      && FirstKeySeparates(Toy(), u.ab[|s.ab|], FirstRoot(Toy(), s.b, Toy().public(Key(4))))
  {
    var s := Hundred(plain);
    HundredOk(plain);
    HundredRoots(plain);
    BeginOk();
    RunLed(Toy(), Variant(true, true), Begin(), Sends(100, plain, Key(3)));
    RatchetParty.EncryptKeepsSending(Toy(), s.a, plain, Key(4));
    var t := SendA(Toy(), s, plain, Key(4)).ab[|s.ab|];
    ToyRootStep(s.a.rootKey, s.a.rootKey);
    ToyRootStep(s.b.rootKey, s.b.rootKey);
    RootLaws({s.a.rootKey, s.b.rootKey}, Outputs(Toy(), s, Key(4)), t, FirstRoot(Toy(), s.b, Key(4)));
  }

  /** The 101st message without a reply: the lead is lost, its root is out of the receiver's
      reach, and it does not open even with the sender's half. */
  lemma HundredAndFirst(plain: seq<byte>)
    ensures var s := Hundred(plain);
      var u := SendA(Toy(), s, plain, Key(4));
      var t := u.ab[|s.ab|];
      && (OneAhead(Toy(), u) <==> OneAhead(Toy(), Swap(u)))
      && FirstRoot(Toy(), u.b, t.Pub()) != t.root
      && Decrypt(Toy(), Variant(true, true), u.b, t.msg, Key(5)).1 == None
  {
    var v, es := Variant(true, true), Sends(100, plain, Key(3));
    BeginOk();
    HundredOk(plain);
    HundredLaws(plain);
    SendKeepsLeadIff(Toy(), v, Begin(), es, Alice, plain, Key(4));
    RefreshNotFollowed(Toy(), true, Begin(), es, Alice, plain, Key(4), Key(5));
  }

  // ------------------------------------------------------------------
  // Two messages in reverse
  // ------------------------------------------------------------------

  /** Message n of the toy chain from `seed`. */
  function Numbered(seed: Key32, n: u32, plain: seq<byte>): Flight {
    var mk := Toy().MessageKeyOf(Toy().Advance(seed, n));
    Flight(Message(Header(Key(2), 0, n), Toy().seal(Aes256Gcm, mk.key, mk.nonce, plain), Aes256Gcm), plain)
  }

  /** A receiver at the start of that chain. */
  function Receiver(seed: Key32): State {
    Initial(Toy(), Key(0), Key(1), Key(2), Aes256Gcm).(recvChain := Some(ChainKey(seed, 0)))
  }

  lemma AsWrittenLoses(seed: Key32, plain0: seq<byte>, plain1: seq<byte>)
    ensures var f1, f0 := Numbered(seed, 1, plain1), Numbered(seed, 0, plain0);
      var (t, x) := Receive(Toy(), AS_WRITTEN, Receiver(seed), f1.msg);
      x == Some(plain1) && Receive(Toy(), AS_WRITTEN, t, f0.msg).1 == None
  {
    var f1, f0 := Numbered(seed, 1, plain1), Numbered(seed, 0, plain0);
    BasicLaws();
    ChainLaws(seed, [f0]);
    AheadOpens(Toy(), AS_WRITTEN, Receiver(seed), seed, f1);
    SkipToSpec(Toy(), false, Receiver(seed), 1);
    LateOpensNothing(Toy(), AS_WRITTEN, Receive(Toy(), AS_WRITTEN, Receiver(seed), f1.msg).0, seed, f0);
  }

  lemma PairKept(c: Primitives, r: State, seed: Key32, f1: Flight, f0: Flight)
    requires OpenInvertsSeal(c) && Exact(c, r, seed, {}) && SealedIn(c, seed, f1) && SealedIn(c, seed, f0)
    requires f1.msg.header.number == 1 && f0.msg.header.number == 0
    requires f1.msg.header.dhPub == f0.msg.header.dhPub == r.remote.value
    ensures ReceiveAll(c, Variant(false, true), r, [f1, f0]).1 == [Some(f1.plain), Some(f0.plain)]
  {
    OutOfOrder(c, false, r, seed, {}, [f1, f0]);
  }

  lemma ReceiverExact(seed: Key32)
    ensures Exact(Toy(), Receiver(seed), seed, {})
  {}

  /** Messages 1 and 0, in that order: as written the second is lost, with stored keys both
      open. */
  lemma ReversedPair(seed: Key32, plain0: seq<byte>, plain1: seq<byte>)
    ensures var fs := [Numbered(seed, 1, plain1), Numbered(seed, 0, plain0)];
      && ReceiveAll(Toy(), AS_WRITTEN, Receiver(seed), fs).1 == [Some(plain1), None]
      && ReceiveAll(Toy(), Variant(false, true), Receiver(seed), fs).1 == [Some(plain1), Some(plain0)]
  {
    AsWrittenLoses(seed, plain0, plain1);
    PairReceived(AS_WRITTEN, Receiver(seed), Numbered(seed, 1, plain1), Numbered(seed, 0, plain0));
    BasicLaws();
    ReceiverExact(seed);
    PairKept(Toy(), Receiver(seed), seed, Numbered(seed, 1, plain1), Numbered(seed, 0, plain0));
  }

  lemma PairReceived(v: Variant, r: State, f: Flight, g: Flight)
    requires r.remote.Some?
    ensures var (t, x) := Receive(Toy(), v, r, f.msg);
      ReceiveAll(Toy(), v, r, [f, g]).1 == [x, Receive(Toy(), v, t, g.msg).1]
  {
    var (t, x) := Receive(Toy(), v, r, f.msg);
    assert [f, g][1..] == [g];
    OneReceived(v, t, g);
  }

  lemma OneReceived(v: Variant, r: State, g: Flight)
    requires r.remote.Some?
    ensures ReceiveAll(Toy(), v, r, [g]).1 == [Receive(Toy(), v, r, g.msg).1]
  {
    assert ReceiveAll(Toy(), v, Receive(Toy(), v, r, g.msg).0, [g][1..]).1 == [];
  }
}
