/** What every run of two joined parties guarantees: one party is exactly one root step
    ahead, and which variants of the code deliver. */
module RatchetDelivery {
  import opened Bytes
  import opened Ratchet
  import opened RatchetChain
  import opened RatchetSystem
  import opened RatchetAsWritten
  import RatchetParty

  // ------------------------------------------------------------------
  // Root agreement, for the code as written and every variant
  // ------------------------------------------------------------------

  lemma ActKeepsLed(c: Primitives, v: Variant, t: System, e: Event)
    requires DhCommutes(c) && (Idle(c, t) || Led(c, t)) && MayAct(c, v, t, e)
    ensures Led(c, Act(c, v, t, e))
  {
    match e
    case Send(_, plain, newDh) =>
      if Idle(c, t) { FirstSendLeads(c, t, plain, newDh); }
      else if Leads(c, t) { LeaderSends(c, t, plain, newDh); }
      else { FollowerSends(c, t, plain, newDh); }
    case Deliver(_, i, newDh) =>
      if Leads(c, t) {
        var t1 := RatchetB(c, v, t, i, newDh);
        if DrawsOnReceive(t.b, t.ab[i].msg) {
          RatchetSwapsLead(c, v, t, i, newDh);
          LeaderReceives(c, v, t1, i);
        } else {
          ReceiveKeepsLead(c, v, t1, i);
        }
      } else {
        LeaderReceives(c, v, t, i);
      }
    case Drop(_, i) =>
      if Leads(c, t) { DropFromFollower(c, t, i); } else { DropFromLeader(c, t, i); }
    case Duplicate(_, _) =>
  }

  lemma LedSwaps(c: Primitives, s: System)
    ensures Led(c, Swap(s)) <==> Led(c, s)
    ensures Idle(c, Swap(s)) <==> Idle(c, s)
  {}

  lemma {:induction false} RunLed(c: Primitives, v: Variant, s0: System, es: seq<Event>)
    requires DhCommutes(c) && Idle(c, s0) && RunEnabled(c, v, s0, es)
    ensures if es == [] then Idle(c, Run(c, v, s0, es)) else Led(c, Run(c, v, s0, es))
    decreases |es|
  {
    if es != [] {
      var s, e := Run(c, v, s0, es[..|es| - 1]), es[|es| - 1];
      RunLed(c, v, s0, es[..|es| - 1]);
      LedSwaps(c, s);
      ActKeepsLed(c, v, Seat(s, e), e);
      LedSwaps(c, Act(c, v, Seat(s, e), e));
    }
  }

  /** After the first message of any run exactly one party is one root step ahead. */
  lemma {:induction false} ExactlyOneAhead(c: Primitives, v: Variant, s0: System, es: seq<Event>)
    requires DhCommutes(c) && Idle(c, s0) && RunEnabled(c, v, s0, es) && es != []
    ensures var s := Run(c, v, s0, es);
      OneAhead(c, s) <==> !OneAhead(c, Swap(s))
  {
    RunLed(c, v, s0, es);
  }

  /** Whenever a delivery would run a DH step, its first root is the root that seeded the
      sender's chain, which is the sender's present root. */
  lemma {:induction false} FirstRootIsSenders(c: Primitives, v: Variant, s0: System, es: seq<Event>, to: Party, i: nat)
    requires DhCommutes(c) && Idle(c, s0) && RunEnabled(c, v, s0, es)
    ensures var s := Facing(Run(c, v, s0, es), to);
      i < |s.ab| && DrawsOnReceive(s.b, s.ab[i].msg) ==>
        && FirstRoot(c, s.b, s.ab[i].Pub()) == s.a.rootKey == s.ab[i].root
        && s.a.sendChain == Some(ChainKey(c.Advance(c.SendHalf(s.a.rootKey), s.a.sendNumber), s.a.sendNumber))
  {
    var s := Facing(Run(c, v, s0, es), to);
    RunLed(c, v, s0, es);
    if i < |s.ab| && DrawsOnReceive(s.b, s.ab[i].msg) {
      if Leads(c, Swap(s)) { LeaderReceives(c, v, s, i); }
      assert NewMessage(s, s.ab[i]);
    }
  }

  /** Among these roots and DH outputs, a root step fixes no root and merges no two. */
  ghost predicate RootStepSeparates(c: Primitives, roots: set<Key32>, outputs: set<Key32>) {
    && (forall k, d :: k in roots && d in outputs ==> c.kdfRk(k, d) != k)
    && (forall k, l, d, e :: k in roots && l in roots && d in outputs && e in outputs && c.kdfRk(k, d) == c.kdfRk(l, e)
          ==> k == l)
  }

  /** The DH outputs of two parties' present keys, and of a key the party in the `a` place
      draws to send. */
  function Outputs(c: Primitives, s: System, newDh: Key32): set<Key32>
    requires s.a.remote.Some?
  {
    {c.dh(s.b.dhSecret, s.a.dhPublic), c.dh(s.a.dhSecret, s.b.dhPublic),
     c.dh(newDh, s.a.remote.value), c.dh(s.b.dhSecret, c.public(newDh))}
  }

  ghost predicate RootsSeparate(c: Primitives, s: System, newDh: Key32) {
    s.a.remote.Some? && RootStepSeparates(c, {s.a.rootKey, s.b.rootKey}, Outputs(c, s, newDh))
  }

  /** A party that draws a new DH key to send leaves its peer unable to find its root. */
  lemma RefreshLosesRoot(c: Primitives, s: System, plain: seq<byte>, newDh: Key32)
    requires Led(c, s) && c.public(newDh) !in s.used && DrawsOnSend(s.a) && RootsSeparate(c, s, newDh)
    ensures var u := SendA(c, s, plain, newDh);
      u.a.dhPublic == c.public(newDh) && FirstRoot(c, u.b, u.a.dhPublic) != u.a.rootKey
  {
    assert s.a.rootKey != s.b.rootKey;
  }

  lemma SendFromLead(c: Primitives, s: System, plain: seq<byte>, newDh: Key32)
    requires Led(c, s) && c.public(newDh) !in s.used && RootsSeparate(c, s, newDh)
    ensures var u := SendA(c, s, plain, newDh);
      (OneAhead(c, u) <==> !OneAhead(c, Swap(u))) <==> !DrawsOnSend(s.a)
  {
    if DrawsOnSend(s.a) {
      RefreshLosesRoot(c, s, plain, newDh);
    } else if Leads(c, s) {
      LeaderSends(c, s, plain, newDh);
    } else {
      FollowerSends(c, s, plain, newDh);
    }
  }

  /** After the first message of any run, one more send leaves exactly one party one step
      ahead if and only if its sender has a sending chain that has carried fewer than 100
      messages: the guard of `ratchet_encrypt`. */
  lemma {:induction false} SendKeepsLeadIff(
      c: Primitives, v: Variant, s0: System, es: seq<Event>, sender: Party, plain: seq<byte>, newDh: Key32)
    requires DhCommutes(c) && Idle(c, s0) && RunEnabled(c, v, s0, es) && es != []
    requires c.public(newDh) !in Run(c, v, s0, es).used
    requires RootsSeparate(c, Facing(Run(c, v, s0, es), Peer(sender)), newDh)
    ensures var s := Run(c, v, s0, es);
      var u := Step(c, v, s, Send(sender, plain, newDh));
      (OneAhead(c, u) <==> !OneAhead(c, Swap(u))) <==> !DrawsOnSend(if sender == Alice then s.a else s.b)
  {
    var s := Run(c, v, s0, es);
    RunLed(c, v, s0, es);
    SendFromLead(c, Facing(s, Peer(sender)), plain, newDh);
  }

  /** Message t, sent in s, opens under the first key of the chain from `root` only if that is
      the key it was sealed under, which it is only if `root` seeded its chain. */
  ghost predicate FirstKeySeparates(c: Primitives, t: Transit, root: Key32) {
    var key := c.MessageKeyOf(c.Advance(c.SendHalf(root), 0));
    && (c.Unseal(t.msg.suite, key, t.msg.ciphertext).Some? ==> key == t.Key(c))
    && (key == t.Key(c) ==> root == t.root)
  }

  /** Where that guard is false, the receiver can neither find the sender's root nor open the
      message, were it the next it is given, even with the sender's half. */
  lemma {:induction false} RefreshNotFollowed(
      c: Primitives, keep: bool, s0: System, es: seq<Event>, sender: Party, plain: seq<byte>, newDh: Key32, next: Key32)
    requires DhCommutes(c) && Idle(c, s0) && RunEnabled(c, Variant(true, keep), s0, es) && es != []
    requires c.public(newDh) !in Run(c, Variant(true, keep), s0, es).used
    requires var s := Facing(Run(c, Variant(true, keep), s0, es), Peer(sender));
      var u := SendA(c, s, plain, newDh);
      && DrawsOnSend(s.a) && RootsSeparate(c, s, newDh)
      && FirstKeySeparates(c, u.ab[|s.ab|], FirstRoot(c, s.b, c.public(newDh)))
    ensures var s := Facing(Run(c, Variant(true, keep), s0, es), Peer(sender));
      var u := SendA(c, s, plain, newDh);
      var t := u.ab[|s.ab|];
      && FirstRoot(c, u.b, t.Pub()) != u.a.rootKey == t.root
      && Decrypt(c, Variant(true, keep), u.b, t.msg, next).1 == None
  {
    var v := Variant(true, keep);
    var s := Facing(Run(c, v, s0, es), Peer(sender));
    RunLed(c, v, s0, es);
    RefreshLosesRoot(c, s, plain, newDh);
    var u := SendA(c, s, plain, newDh);
    var t := u.ab[|s.ab|];
    ReceiveAhead(c, v, DhRecv(c, v, u.b, t.Pub(), next), t.msg);
  }

  // ------------------------------------------------------------------
  // Delivery, when the receive chain is taken from the sender's half
  // ------------------------------------------------------------------

  predicate Openable(v: Variant, r: State, t: Transit) {
    r.recvNumber <= t.Number() || (v.keepSkipped && (t.Pub(), t.Number()) in r.skipped)
  }

  /** Receiver r can open every message in its channel that is under the DH key it is
      receiving on: its chain is that of `epoch`, and so are the keys it stores. */
  predicate SyncSide(c: Primitives, v: Variant, r: State, epoch: Key32, ch: Channel) {
    && r.remote.Some?
    && (r.recvChain.Some? ==> InSync(c, r, c.SendHalf(epoch)))
    && (forall i :: 0 <= i < |ch| && ch[i].Pub() == r.remote.value ==> Openable(v, r, ch[i]))
    && (forall k: (Key32, u32) :: k in r.skipped && k.0 == r.remote.value
          ==> r.skipped[k] == Stored(c, c.SendHalf(epoch), 0, k.1))
  }

  predicate Synced(c: Primitives, v: Variant, s: System) {
    && SyncSide(c, v, s.a, s.aEpoch, s.ba) && SyncSide(c, v, s.b, s.bEpoch, s.ab)
    && (forall k: (Key32, u32) :: k in s.b.skipped ==> k.0 != s.a.dhPublic)
    && s.a.recvNumber <= s.b.sendNumber
  }

  predicate LeadsSynced(c: Primitives, v: Variant, s: System) {
    Leads(c, s) && Synced(c, v, s)
  }

  lemma SyncAheadAt(c: Primitives, v: Variant, r: State, epoch: Key32, ch: Channel, i: nat, j: nat)
    requires OpenInvertsSeal(c) && WellFormed(c, ch) && SyncSide(c, v, r, epoch, ch) && r.recvChain.Some?
    requires i < |ch| && j < |ch| && i != j && ch[i].Pub() == r.remote.value == ch[j].Pub()
    requires v.keepSkipped || i == 0
    requires r.recvNumber <= ch[i].Number() && ch[i].root == epoch
    ensures Openable(v, Receive(c, v, r, ch[i].msg).0, ch[j])
  {
    AheadOpens(c, v, r, c.SendHalf(epoch), ch[i].AsFlight());
    if v.keepSkipped {
      AheadStoresAt(c, r, c.SendHalf(epoch), ch[i].Number(), ch[j].Number());
    }
  }

  lemma SyncAheadKeys(c: Primitives, v: Variant, r: State, epoch: Key32, f: Flight, k: (Key32, u32))
    requires OpenInvertsSeal(c) && InSync(c, r, c.SendHalf(epoch)) && SealedIn(c, c.SendHalf(epoch), f)
    requires r.recvNumber <= f.msg.header.number < 100 && k.0 == r.remote.value
    requires k in r.skipped ==> r.skipped[k] == Stored(c, c.SendHalf(epoch), 0, k.1)
    ensures var t := Receive(c, v, r, f.msg).0;
      k in t.skipped ==> t.skipped[k] == Stored(c, c.SendHalf(epoch), 0, k.1)
  {
    AheadOpens(c, v, r, c.SendHalf(epoch), f);
    if v.keepSkipped { AheadStoresAt(c, r, c.SendHalf(epoch), f.msg.header.number, k.1); }
    else { SkipToSpec(c, false, r, f.msg.header.number); }
  }

  lemma SyncReceiveAhead(c: Primitives, v: Variant, r: State, epoch: Key32, ch: Channel, i: nat)
    requires OpenInvertsSeal(c) && WellFormed(c, ch) && SyncSide(c, v, r, epoch, ch) && r.recvChain.Some?
    requires i < |ch| && ch[i].Pub() == r.remote.value && ch[i].root == epoch && (v.keepSkipped || i == 0)
    requires r.recvNumber <= ch[i].Number()
    ensures var (t, plain) := Receive(c, v, r, ch[i].msg);
      plain == Some(ch[i].plain) && SyncSide(c, v, t, epoch, Without(ch, i))
  {
    var m, w := ch[i].msg, Without(ch, i);
    var t := Receive(c, v, r, m).0;
    AheadOpens(c, v, r, c.SendHalf(epoch), ch[i].AsFlight());
    forall k | 0 <= k < |w| && w[k].Pub() == t.remote.value ensures Openable(v, t, w[k]) {
      var j := if k < i then k else k + 1;
      assert w[k] == ch[j];
      SyncAheadAt(c, v, r, epoch, ch, i, j);
    }
    forall k: (Key32, u32) | k in t.skipped && k.0 == t.remote.value
      ensures t.skipped[k] == Stored(c, c.SendHalf(epoch), 0, k.1)
    {
      SyncAheadKeys(c, v, r, epoch, ch[i].AsFlight(), k);
    }
  }

  lemma SyncReceiveStored(c: Primitives, v: Variant, r: State, epoch: Key32, ch: Channel, i: nat)
    requires OpenInvertsSeal(c) && WellFormed(c, ch) && SyncSide(c, v, r, epoch, ch) && r.recvChain.Some?
    requires i < |ch| && ch[i].Pub() == r.remote.value && ch[i].root == epoch
    requires ch[i].Number() < r.recvNumber
    ensures var (t, plain) := Receive(c, v, r, ch[i].msg);
      plain == Some(ch[i].plain) && SyncSide(c, v, t, epoch, Without(ch, i))
  {}

  lemma SyncReceive(c: Primitives, v: Variant, r: State, epoch: Key32, ch: Channel, i: nat)
    requires OpenInvertsSeal(c) && WellFormed(c, ch) && SyncSide(c, v, r, epoch, ch) && r.recvChain.Some?
    requires i < |ch| && ch[i].Pub() == r.remote.value && ch[i].root == epoch && (v.keepSkipped || i == 0)
    ensures var (t, plain) := Receive(c, v, r, ch[i].msg);
      plain == Some(ch[i].plain) && SyncSide(c, v, t, epoch, Without(ch, i))
  {
    if r.recvNumber <= ch[i].Number() { SyncReceiveAhead(c, v, r, epoch, ch, i); }
    else { SyncReceiveStored(c, v, r, epoch, ch, i); }
  }

  lemma SendKeepsSynced(c: Primitives, v: Variant, s: System, plain: seq<byte>, newDh: Key32)
    requires DhCommutes(c)
    requires if Idle(c, s) then c.public(newDh) !in s.used
             else !DrawsOnSend(s.a) && Working(c, v, s)
    ensures var u := SendA(c, s, plain, newDh);
      Working(c, v, u)
  {
    RatchetParty.EncryptKeepsSending(c, s.a, plain, newDh);
    if Idle(c, s) { FirstSendLeads(c, s, plain, newDh); }
    else if LeadsSynced(c, v, s) { LeaderSends(c, s, plain, newDh); }
    else { FollowerSends(c, s, plain, newDh); }
  }

  lemma RatchetKeepsSynced(c: Primitives, v: Variant, s: System, i: nat, newDh: Key32)
    requires DhCommutes(c) && v.senderHalf && LeadsSynced(c, v, s) && MayDeliver(v, s, i)
    requires DrawsOnReceive(s.b, s.ab[i].msg) && c.public(newDh) !in s.used
    ensures LeadsSynced(c, v, Swap(RatchetB(c, v, s, i, newDh)))
  {}

  lemma SkippedGrowUnder(c: Primitives, v: Variant, s: State, m: Message, k: (Key32, u32))
    requires s.remote.Some? && k in Receive(c, v, s, m).0.skipped
    ensures k in s.skipped || k.0 == s.remote.value
  {
    if s.recvChain.Some? && s.recvNumber <= m.header.number {
      SkipToSpec(c, v.keepSkipped, s, m.header.number);
      if v.keepSkipped { SkipToStores(c, s, m.header.number, k.0, k.1); }
    }
  }

  lemma FollowerReceivesSynced(c: Primitives, v: Variant, s: System, i: nat)
    requires OpenInvertsSeal(c) && LeadsSynced(c, v, s) && MayDeliver(v, s, i)
    requires !DrawsOnReceive(s.b, s.ab[i].msg)
    ensures LeadsSynced(c, v, ReceiveB(c, v, s, i))
    ensures Receive(c, v, s.b, s.ab[i].msg).1 == Some(s.ab[i].plain)
  {
    ReceiveKeepsLead(c, v, s, i);
    assert OldMessage(s, s.ab[i]);
    SyncReceive(c, v, s.b, s.bEpoch, s.ab, i);
    RatchetParty.ReceiveKeepsSending(c, v, s.b, s.ab[i].msg);
    var t := ReceiveB(c, v, s, i);
    forall k: (Key32, u32) | k in t.b.skipped ensures k.0 != s.a.dhPublic {
      SkippedGrowUnder(c, v, s.b, s.ab[i].msg, k);
    }
  }

  lemma FromFollower(c: Primitives, s: System, i: nat)
    requires Leads(c, Swap(s)) && i < |s.ab|
    ensures s.ab[i].Pub() == s.a.dhPublic && s.ab[i].root == s.a.rootKey && s.ab[i].Number() < s.a.sendNumber
  {
    assert Swap(s).ba[i] == s.ab[i];
  }

  lemma CounterStaysBelow(c: Primitives, v: Variant, r: State, m: Message, bound: u32)
    requires r.remote.Some? && r.recvChain.Some? && r.recvNumber <= bound && m.header.number < bound
    requires r.recvNumber <= m.header.number || (m.header.dhPub, m.header.number) in r.skipped
    ensures Receive(c, v, r, m).0.recvNumber <= bound
  {
    if r.recvNumber <= m.header.number { ReceiveAhead(c, v, r, m); }
  }

  lemma LeaderReceivesSynced(c: Primitives, v: Variant, s: System, i: nat)
    requires OpenInvertsSeal(c) && LeadsSynced(c, v, Swap(s)) && MayDeliver(v, s, i)
    ensures !DrawsOnReceive(s.b, s.ab[i].msg)
    ensures LeadsSynced(c, v, Swap(ReceiveB(c, v, s, i)))
    ensures Receive(c, v, s.b, s.ab[i].msg).1 == Some(s.ab[i].plain)
  {
    LeaderReceives(c, v, s, i);
    FromFollower(c, s, i);
    SyncReceive(c, v, s.b, s.bEpoch, s.ab, i);
    RatchetParty.ReceiveKeepsSending(c, v, s.b, s.ab[i].msg);
    assert Openable(v, s.b, s.ab[i]);
    CounterStaysBelow(c, v, s.b, s.ab[i].msg, s.a.sendNumber);
  }

  /** A delivery opens its message to the plaintext sealed in it, and keeps the parties in sync. */
  lemma DeliverSynced(c: Primitives, v: Variant, s: System, i: nat, newDh: Key32)
    requires DhCommutes(c) && OpenInvertsSeal(c) && v.senderHalf
    requires Working(c, v, s)
    requires MayDeliver(v, s, i) && (DrawsOnReceive(s.b, s.ab[i].msg) ==> c.public(newDh) !in s.used)
    ensures var u := DeliverB(c, v, s, i, newDh);
      && Decrypt(c, v, s.b, s.ab[i].msg, newDh).1 == Some(s.ab[i].plain)
      && Working(c, v, u)
  {
    if LeadsSynced(c, v, Swap(s)) {
      LeaderReceivesSynced(c, v, s, i);
    } else if DrawsOnReceive(s.b, s.ab[i].msg) {
      RatchetKeepsSynced(c, v, s, i, newDh);
      LeaderReceivesSynced(c, v, RatchetB(c, v, s, i, newDh), i);
    } else {
      FollowerReceivesSynced(c, v, s, i);
    }
  }

  lemma DropKeepsSynced(c: Primitives, v: Variant, s: System, i: nat)
    requires i < |s.ab|
    ensures LeadsSynced(c, v, s) ==> LeadsSynced(c, v, DropB(s, i))
    ensures LeadsSynced(c, v, Swap(s)) ==> LeadsSynced(c, v, Swap(DropB(s, i)))
  {
    var w := Without(s.ab, i);
    forall k | 0 <= k < |w| ensures w[k] == s.ab[if k < i then k else k + 1] {}
    if LeadsSynced(c, v, s) { DropFromFollower(c, s, i); }
    if LeadsSynced(c, v, Swap(s)) { DropFromLeader(c, s, i); }
  }

  predicate Working(c: Primitives, v: Variant, s: System) {
    LeadsSynced(c, v, s) || LeadsSynced(c, v, Swap(s))
  }

  lemma WorkingSwaps(c: Primitives, v: Variant, s: System)
    ensures Working(c, v, Swap(s)) <==> Working(c, v, s)
  {}

  lemma ActKeepsWorking(c: Primitives, v: Variant, t: System, e: Event)
    requires DhCommutes(c) && OpenInvertsSeal(c) && v.senderHalf
    requires (Idle(c, t) || Working(c, v, t)) && MayAct(c, v, t, e)
    ensures Working(c, v, Act(c, v, t, e))
  {
    match e
    case Send(_, plain, newDh) => SendKeepsSynced(c, v, t, plain, newDh);
    case Deliver(_, i, newDh) => DeliverSynced(c, v, t, i, newDh);
    case Drop(_, i) => DropKeepsSynced(c, v, t, i);
    case Duplicate(_, _) =>
  }

  lemma {:induction false} RunWorking(c: Primitives, v: Variant, s0: System, es: seq<Event>)
    requires DhCommutes(c) && OpenInvertsSeal(c) && v.senderHalf
    requires Idle(c, s0) && RunEnabled(c, v, s0, es)
    ensures if es == [] then Idle(c, Run(c, v, s0, es)) else Working(c, v, Run(c, v, s0, es))
    decreases |es|
  {
    if es != [] {
      var s, e := Run(c, v, s0, es[..|es| - 1]), es[|es| - 1];
      RunWorking(c, v, s0, es[..|es| - 1]);
      LedSwaps(c, s);
      WorkingSwaps(c, v, s);
      ActKeepsWorking(c, v, Seat(s, e), e);
      WorkingSwaps(c, v, Act(c, v, Seat(s, e), e));
    }
  }

  // ------------------------------------------------------------------
  // Main theorem
  // ------------------------------------------------------------------

  /** In every run of two matched parties over lossy channels, sending at will in both
      directions, the next delivery returns the plaintext sealed in the message if the
      receive chain is taken from the sender's half of the root. As written it is not, and
      the delivery returns nothing. */
  lemma DeliveryIffSenderHalf(
      c: Primitives, v: Variant, s0: System, es: seq<Event>, to: Party, at: nat, newDh: Key32)
    requires DhCommutes(c) && Idle(c, s0) && RunEnabled(c, v, s0, es)
    requires Enabled(c, v, Run(c, v, s0, es), Deliver(to, at, newDh))
    requires if v.senderHalf then OpenInvertsSeal(c) else KeysSeparate(c, v, s0, es + [Deliver(to, at, newDh)])
    ensures var s := Facing(Run(c, v, s0, es), to);
      Decrypt(c, v, s.b, s.ab[at].msg, newDh).1 == if v.senderHalf then Some(s.ab[at].plain) else None
  {
    var s := Facing(Run(c, v, s0, es), to);
    if v.senderHalf {
      RunWorking(c, v, s0, es);
      DeliverSynced(c, v, s, at, newDh);
    } else {
      NothingDelivered(c, v, s0, es, to, at, newDh);
    }
  }
}
