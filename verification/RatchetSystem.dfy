/** Two Double Ratchet parties joined by lossy channels. */
module RatchetSystem {
  import opened Bytes
  import opened Ratchet
  import opened RatchetChain
  import RatchetParty

  /** A message in flight. `plain` and `root` are history: the plaintext the sender sealed
      and the root key its sending chain started from. */
  datatype Transit = Transit(msg: Message, plain: seq<byte>, root: Key32)
  {
    function Pub(): Key32 { msg.header.dhPub }
    function Number(): u32 { msg.header.number }
    function Seed(c: Primitives): Key32 { c.SendHalf(root) }
    function AsFlight(): Flight { Flight(msg, plain) }

    /** The message key it was sealed under. */
    function Key(c: Primitives): MessageKey { c.MessageKeyOf(c.Advance(Seed(c), Number())) }
  }

  type Channel = seq<Transit>

  /** Both parties, the two channels, and history: the DH publics drawn so far; per party,
      the root after the first DH step of its last `dh_ratchet_recv`; every message sent; and
      every root key that has seeded a chain. */
  datatype System = System(
    a: State, b: State, ab: Channel, ba: Channel,
    used: set<Key32>, aEpoch: Key32, bEpoch: Key32, sent: seq<Transit>, roots: set<Key32>)

  function Swap(s: System): System {
    System(s.b, s.a, s.ba, s.ab, s.used, s.bEpoch, s.aEpoch, s.sent, s.roots)
  }

  function Start(c: Primitives, shared: Key32, aliceSecret: Key32, bobSecret: Key32,
                 aSuite: CipherSuite, bSuite: CipherSuite): System
  {
    var alice := AliceInitial(c, shared, c.public(bobSecret), aSuite, aliceSecret);
    var bob := BobInitial(c, shared, bobSecret, c.public(aliceSecret), bSuite);
    System(alice, bob, [], [], {alice.dhPublic, bob.dhPublic}, alice.rootKey, bob.rootKey, [], {})
  }

  datatype Party = Alice | Bob

  datatype Event =
    | Send(sender: Party, plain: seq<byte>, newDh: Key32)
    | Deliver(to: Party, at: nat, newDh: Key32)
    | Drop(to: Party, at: nat)
    | Duplicate(to: Party, at: nat)

  function Without(ch: Channel, i: nat): Channel
    requires i < |ch|
  {
    ch[..i] + ch[i + 1..]
  }

  function Draw(c: Primitives, s: System, draws: bool, newDh: Key32): set<Key32> {
    if draws then s.used + {c.public(newDh)} else s.used
  }

  /** The party in the `a` place encrypts a message. */
  function SendA(c: Primitives, s: System, plain: seq<byte>, newDh: Key32): System {
    var (a, m) := Encrypt(c, s.a, plain, newDh);
    var t := Transit(m, plain, a.rootKey);
    s.(a := a, ab := s.ab + [t], used := Draw(c, s, DrawsOnSend(s.a), newDh),
       sent := s.sent + [t], roots := s.roots + {a.rootKey})
  }

  /** The party in the `b` place decrypts message i of its channel. */
  function DeliverB(c: Primitives, v: Variant, s: System, i: nat, newDh: Key32): System
    requires i < |s.ab|
  {
    var m := s.ab[i].msg;
    s.(b := Decrypt(c, v, s.b, m, newDh).0, ab := Without(s.ab, i),
       used := Draw(c, s, DrawsOnReceive(s.b, m), newDh),
       bEpoch := if DrawsOnReceive(s.b, m) then FirstRoot(c, s.b, m.header.dhPub) else s.bEpoch,
       roots := if DrawsOnReceive(s.b, m) then s.roots + {DhRecv(c, v, s.b, m.header.dhPub, newDh).rootKey}
                else s.roots)
  }

  function DropB(s: System, i: nat): System
    requires i < |s.ab|
  {
    s.(ab := Without(s.ab, i))
  }

  /** The network delivers message i once more, later. */
  function DuplicateB(s: System, i: nat): System
    requires i < |s.ab|
  {
    s.(ab := s.ab + [s.ab[i]])
  }

  /** Whoever starts may start; after that a party sends only on a sending chain that has
      carried fewer than 100 messages, so that `ratchet_encrypt` draws no new DH key. */
  predicate MaySend(s: System) {
    (s.a.sendChain.None? && s.b.sendChain.None?) || !DrawsOnSend(s.a)
  }

  /** Channels lose messages freely. They keep order, except that when skipped keys are
      kept the messages under one DH key may overtake one another. */
  predicate MayDeliver(v: Variant, s: System, i: nat) {
    i < |s.ab| && (v.keepSkipped || i == 0) && s.ab[i].Pub() == s.ab[0].Pub()
  }

  function Peer(p: Party): Party {
    if p == Alice then Bob else Alice
  }

  /** s with `receiver` in the `b` place. */
  function Facing(s: System, receiver: Party): System {
    if receiver == Bob then s else Swap(s)
  }

  /** s with e's sender in the `a` place and its receiver in the `b` place. */
  function Seat(s: System, e: Event): System {
    match e
    case Send(sender, _, _) => Facing(s, Peer(sender))
    case Deliver(to, _, _) => Facing(s, to)
    case Drop(to, _) => Facing(s, to)
    case Duplicate(to, _) => Facing(s, to)
  }

  /** Whether e may happen, in a system with e's sender in the `a` place. A key is new
      when it is drawn, and nothing is delivered twice. */
  predicate MayAct(c: Primitives, v: Variant, t: System, e: Event) {
    match e
    case Send(_, _, newDh) => MaySend(t) && (DrawsOnSend(t.a) ==> c.public(newDh) !in t.used)
    case Deliver(_, i, newDh) =>
      MayDeliver(v, t, i) && (DrawsOnReceive(t.b, t.ab[i].msg) ==> c.public(newDh) !in t.used)
    case Drop(_, i) => i < |t.ab|
    case Duplicate(_, _) => false
  }

  predicate Enabled(c: Primitives, v: Variant, s: System, e: Event) {
    MayAct(c, v, Seat(s, e), e)
  }

  function Act(c: Primitives, v: Variant, t: System, e: Event): System {
    match e
    case Send(_, plain, newDh) => SendA(c, t, plain, newDh)
    case Deliver(_, i, newDh) => if i < |t.ab| then DeliverB(c, v, t, i, newDh) else t
    case Drop(_, i) => if i < |t.ab| then DropB(t, i) else t
    case Duplicate(_, i) => if i < |t.ab| then DuplicateB(t, i) else t
  }

  function Step(c: Primitives, v: Variant, s: System, e: Event): System {
    Seat(Act(c, v, Seat(s, e), e), e)
  }

  function Run(c: Primitives, v: Variant, s: System, es: seq<Event>): System {
    if es == [] then s else Step(c, v, Run(c, v, s, es[..|es| - 1]), es[|es| - 1])
  }

  predicate RunEnabled(c: Primitives, v: Variant, s: System, es: seq<Event>) {
    es == [] || (RunEnabled(c, v, s, es[..|es| - 1])
                 && Enabled(c, v, Run(c, v, s, es[..|es| - 1]), es[|es| - 1]))
  }

  lemma RunSnoc(c: Primitives, v: Variant, s0: System, es: seq<Event>, e: Event)
    ensures Run(c, v, s0, es + [e]) == Step(c, v, Run(c, v, s0, es), e)
    ensures RunEnabled(c, v, s0, es + [e]) <==> RunEnabled(c, v, s0, es) && Enabled(c, v, Run(c, v, s0, es), e)
  {
    assert (es + [e])[..|es + [e]| - 1] == es;
  }

  // ------------------------------------------------------------------
  // Laws
  // ------------------------------------------------------------------

  ghost predicate DhCommutes(c: Primitives) {
    forall x, y :: c.dh(x, c.public(y)) == c.dh(y, c.public(x))
  }

  // ------------------------------------------------------------------
  // Invariant
  // ------------------------------------------------------------------

  /** The party in the `a` place is exactly one root step ahead: its root is what the other
      party's first root step will give, on the DH key the other has not yet seen. */
  predicate OneAhead(c: Primitives, s: System) {
    && s.a.remote == Some(s.b.dhPublic)
    && s.b.remote.Some? && s.b.remote.value != s.a.dhPublic
    && s.a.rootKey == FirstRoot(c, s.b, s.a.dhPublic)
  }

  predicate KeysKnown(p: State, used: set<Key32>) {
    && p.dhPublic in used && p.remote.Some? && p.remote.value in used
    && (forall k: (Key32, u32) :: k in p.skipped ==> k.0 in used)
  }

  predicate Sealed(c: Primitives, t: Transit) {
    SealedIn(c, t.Seed(c), t.AsFlight()) && t.Number() < 100
  }

  predicate WellFormed(c: Primitives, ch: Channel) {
    && (forall i :: 0 <= i < |ch| ==> Sealed(c, ch[i]))
    && (forall i, j :: 0 <= i < j < |ch| && ch[i].Pub() == ch[j].Pub() ==> ch[i].Number() < ch[j].Number())
  }

  /** Messages to the leader are all under the follower's current sending chain. */
  predicate ToLeader(s: System) {
    forall i :: 0 <= i < |s.ba| ==>
      s.ba[i].Pub() == s.b.dhPublic && s.ba[i].root == s.b.rootKey && s.ba[i].Number() < s.b.sendNumber
  }

  predicate OldMessage(s: System, t: Transit) {
    s.b.remote == Some(t.Pub()) && s.b.recvChain.Some? && t.root == s.bEpoch
  }

  predicate NewMessage(s: System, t: Transit) {
    t.Pub() == s.a.dhPublic && t.root == s.a.rootKey && t.Number() < s.a.sendNumber
  }

  /** Messages to the follower: some under the leader's previous DH key, then some under
      its current one. */
  predicate ToFollower(s: System) {
    && (forall i :: 0 <= i < |s.ab| ==> OldMessage(s, s.ab[i]) || NewMessage(s, s.ab[i]))
    && (forall i, j :: 0 <= i < j < |s.ab| && s.ab[i].Pub() == s.a.dhPublic ==> s.ab[j].Pub() == s.a.dhPublic)
  }

  predicate Leads(c: Primitives, s: System) {
    && OneAhead(c, s)
    && KeysKnown(s.a, s.used) && KeysKnown(s.b, s.used)
    && RatchetParty.SendingOk(c, s.a) && RatchetParty.SendingOk(c, s.b)
    && s.a.sendChain.Some? && (s.b.sendChain.Some? <==> s.a.recvChain.Some?)
    && (s.a.recvChain.Some? ==> s.aEpoch == s.b.rootKey)
    && WellFormed(c, s.ab) && WellFormed(c, s.ba)
    && ToLeader(s) && ToFollower(s)
  }

  /** Before the first message, from matched initial states. */
  predicate Idle(c: Primitives, s: System) {
    && KeysKnown(s.a, s.used) && KeysKnown(s.b, s.used)
    && RatchetParty.SendingOk(c, s.a) && RatchetParty.SendingOk(c, s.b)
    && s.a.rootKey == s.b.rootKey
    && s.a.remote == Some(s.b.dhPublic) && s.b.remote == Some(s.a.dhPublic)
    && s.a.sendChain.None? && s.b.sendChain.None? && s.a.recvChain.None? && s.b.recvChain.None?
    && s.a.skipped == map[] && s.b.skipped == map[]
    && s.a.recvNumber == 0 && s.b.recvNumber == 0
    && s.ab == [] && s.ba == [] && s.sent == []
  }

  /** One of the two parties leads. */
  predicate Led(c: Primitives, s: System) {
    Leads(c, s) || Leads(c, Swap(s))
  }

  lemma StartIdle(c: Primitives, shared: Key32, aliceSecret: Key32, bobSecret: Key32,
                  aSuite: CipherSuite, bSuite: CipherSuite)
    requires DhCommutes(c)
    ensures Idle(c, Start(c, shared, aliceSecret, bobSecret, aSuite, bSuite))
  {}

  lemma WithoutKeeps(c: Primitives, ch: Channel, i: nat)
    requires WellFormed(c, ch) && i < |ch|
    ensures WellFormed(c, Without(ch, i))
  {}

  lemma FirstSendLeads(c: Primitives, s: System, plain: seq<byte>, newDh: Key32)
    requires DhCommutes(c) && Idle(c, s) && c.public(newDh) !in s.used
    ensures Leads(c, SendA(c, s, plain, newDh))
  {}

  lemma LeaderSends(c: Primitives, s: System, plain: seq<byte>, newDh: Key32)
    requires Leads(c, s) && !DrawsOnSend(s.a)
    ensures Leads(c, SendA(c, s, plain, newDh))
  {
    RatchetParty.EncryptKeepsSending(c, s.a, plain, newDh);
  }

  lemma FollowerSends(c: Primitives, s: System, plain: seq<byte>, newDh: Key32)
    requires Leads(c, Swap(s)) && !DrawsOnSend(s.a)
    ensures Leads(c, Swap(SendA(c, s, plain, newDh)))
  {}

  /** The DH step of a delivery, with the message still in flight. */
  function RatchetB(c: Primitives, v: Variant, s: System, i: nat, newDh: Key32): System
    requires i < |s.ab|
  {
    var m := s.ab[i].msg;
    if DrawsOnReceive(s.b, m) then
      s.(b := DhRecv(c, v, s.b, m.header.dhPub, newDh), used := s.used + {c.public(newDh)},
         bEpoch := FirstRoot(c, s.b, m.header.dhPub),
         roots := s.roots + {DhRecv(c, v, s.b, m.header.dhPub, newDh).rootKey})
    else s
  }

  /** The rest of the delivery. */
  function ReceiveB(c: Primitives, v: Variant, s: System, i: nat): System
    requires i < |s.ab| && s.b.remote.Some?
  {
    s.(b := Receive(c, v, s.b, s.ab[i].msg).0, ab := Without(s.ab, i))
  }

  /** A message under the leader's new DH key hands the lead to its receiver. */
  lemma RatchetSwapsLead(c: Primitives, v: Variant, s: System, i: nat, newDh: Key32)
    requires DhCommutes(c) && Leads(c, s) && i < |s.ab| && s.ab[i].Pub() == s.ab[0].Pub()
    requires DrawsOnReceive(s.b, s.ab[i].msg) && c.public(newDh) !in s.used
    ensures Leads(c, Swap(RatchetB(c, v, s, i, newDh)))
  {}

  lemma SkippedStayKnown(c: Primitives, v: Variant, s: State, m: Message, used: set<Key32>)
    requires KeysKnown(s, used) && m.header.dhPub in used
    ensures KeysKnown(Receive(c, v, s, m).0, used)
  {
    RatchetParty.ReceiveKeepsSending(c, v, s, m);
    if s.recvChain.Some? && s.recvNumber <= m.header.number {
      SkipToSpec(c, v.keepSkipped, s, m.header.number);
      forall k: (Key32, u32) | k in SkipTo(c, v.keepSkipped, s, m.header.number).skipped ensures k.0 in used {
        if v.keepSkipped { SkipToStores(c, s, m.header.number, k.0, k.1); }
      }
    }
  }

  lemma ToFollowerWithout(s: System, t: System, i: nat)
    requires ToFollower(s) && i < |s.ab| && t.ab == Without(s.ab, i)
    requires t.a == s.a && t.bEpoch == s.bEpoch && t.b.remote == s.b.remote
    requires s.b.recvChain.Some? ==> t.b.recvChain.Some?
    ensures ToFollower(t)
  {}

  lemma ReceiveKeepsLead(c: Primitives, v: Variant, s: System, i: nat)
    requires Leads(c, s) && i < |s.ab| && !DrawsOnReceive(s.b, s.ab[i].msg)
    ensures Leads(c, ReceiveB(c, v, s, i))
  {
    RatchetParty.ReceiveKeepsSending(c, v, s.b, s.ab[i].msg);
    SkippedStayKnown(c, v, s.b, s.ab[i].msg, s.used);
    WithoutKeeps(c, s.ab, i);
    ToFollowerWithout(s, ReceiveB(c, v, s, i), i);
  }

  lemma LeaderReceives(c: Primitives, v: Variant, s: System, i: nat)
    requires Leads(c, Swap(s)) && i < |s.ab|
    ensures !DrawsOnReceive(s.b, s.ab[i].msg) && s.b.recvChain.Some?
    ensures Leads(c, Swap(ReceiveB(c, v, s, i)))
  {
    var w := Without(s.ab, i);
    assert Swap(s).ba[i].Pub() == s.a.dhPublic;
    RatchetParty.ReceiveKeepsSending(c, v, s.b, s.ab[i].msg);
    SkippedStayKnown(c, v, s.b, s.ab[i].msg, s.used);
    WithoutKeeps(c, s.ab, i);
    forall k | 0 <= k < |w| ensures w[k] == s.ab[if k < i then k else k + 1] {}
  }

  lemma DropFromFollower(c: Primitives, s: System, i: nat)
    requires i < |s.ab| && Leads(c, s)
    ensures Leads(c, DropB(s, i))
  {
    WithoutKeeps(c, s.ab, i);
    ToFollowerWithout(s, DropB(s, i), i);
  }

  lemma DropFromLeader(c: Primitives, s: System, i: nat)
    requires i < |s.ab| && Leads(c, Swap(s))
    ensures Leads(c, Swap(DropB(s, i)))
  {}

  // ------------------------------------------------------------------
  // What every run sends
  // ------------------------------------------------------------------

  /** A party of this suite, with its own messages in flight: each labelled with that suite,
      and sealed under it with the key of its number. */
  predicate SpeaksIn(c: Primitives, p: State, ch: Channel, suite: CipherSuite) {
    && RatchetParty.SendingOk(c, p) && p.remote.Some? && p.suite == suite
    && (forall i :: 0 <= i < |ch| ==> ch[i].msg.suite == suite && Sealed(c, ch[i]))
  }

  lemma ChannelKeeps(c: Primitives, p: State, ch: Channel, suite: CipherSuite, i: nat)
    requires SpeaksIn(c, p, ch, suite) && i < |ch|
    ensures SpeaksIn(c, p, Without(ch, i), suite) && SpeaksIn(c, p, ch + [ch[i]], suite)
  {
    var w := Without(ch, i);
    forall k | 0 <= k < |w| ensures w[k] == ch[if k < i then k else k + 1] {}
  }

  predicate BothSpeak(c: Primitives, s: System, x: CipherSuite, y: CipherSuite) {
    SpeaksIn(c, s.a, s.ab, x) && SpeaksIn(c, s.b, s.ba, y)
  }

  lemma ActSpeaks(c: Primitives, v: Variant, t: System, e: Event, x: CipherSuite, y: CipherSuite)
    requires BothSpeak(c, t, x, y)
    ensures BothSpeak(c, Act(c, v, t, e), x, y)
  {
    match e
    case Send(_, plain, newDh) => RatchetParty.EncryptKeepsSending(c, t.a, plain, newDh);
    case Deliver(_, i, newDh) =>
      if i < |t.ab| {
        ChannelKeeps(c, t.a, t.ab, x, i);
        RatchetParty.DecryptKeepsSending(c, v, t.b, t.ab[i].msg, newDh);
      }
    case Drop(_, i) =>
      if i < |t.ab| { ChannelKeeps(c, t.a, t.ab, x, i); }
    case Duplicate(_, i) =>
      if i < |t.ab| { ChannelKeeps(c, t.a, t.ab, x, i); }
  }

  lemma StepSpeaks(c: Primitives, v: Variant, s: System, e: Event, x: CipherSuite, y: CipherSuite)
    requires BothSpeak(c, s, x, y)
    ensures BothSpeak(c, Step(c, v, s, e), x, y)
  {
    var t := Seat(s, e);
    if t == s && Seat(Act(c, v, t, e), e) == Act(c, v, t, e) {
      ActSpeaks(c, v, s, e, x, y);
    } else {
      ActSpeaks(c, v, Swap(s), e, y, x);
    }
  }

  /** From any two initial states, over any network: whatever Alice has in flight is sealed
      under and labelled with her suite, and whatever Bob has with his. */
  lemma {:induction false} SuitesKept(
      c: Primitives, v: Variant, shared: Key32, aliceSecret: Key32, bobSecret: Key32,
      aSuite: CipherSuite, bSuite: CipherSuite, es: seq<Event>)
    ensures BothSpeak(c, Run(c, v, Start(c, shared, aliceSecret, bobSecret, aSuite, bSuite), es), aSuite, bSuite)
    decreases |es|
  {
    if es != [] {
      var s := Run(c, v, Start(c, shared, aliceSecret, bobSecret, aSuite, bSuite), es[..|es| - 1]);
      SuitesKept(c, v, shared, aliceSecret, bobSecret, aSuite, bSuite, es[..|es| - 1]);
      StepSpeaks(c, v, s, es[|es| - 1], aSuite, bSuite);
    }
  }
}
