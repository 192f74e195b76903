/** What every run of one party keeps, whatever messages it is handed. */
module RatchetParty {
  import opened Bytes
  import opened Ratchet
  import opened RatchetChain

  datatype Event = Sent(plain: seq<byte>, newDh: Key32) | Received(m: Message, newDh: Key32)

  /** A DH key a party has owned, and whether it was drawn to send. */
  datatype Owned = Owned(pub: Key32, toSend: bool)

  /** A run's state, the messages it sent, and the DH keys it has owned, in order and as a set
      of publics. */
  datatype Trace = Trace(s: State, sent: seq<Message>, keys: seq<Owned>, owned: set<Key32>)

  predicate Draws(s: State, e: Event) {
    match e
    case Sent(_, _) => DrawsOnSend(s)
    case Received(m, _) => DrawsOnReceive(s, m)
  }

  function Step(c: Primitives, v: Variant, t: Trace, e: Event): Trace {
    var pub := c.public(e.newDh);
    var keys := if Draws(t.s, e) then t.keys + [Owned(pub, e.Sent?)] else t.keys;
    var owned := if Draws(t.s, e) then t.owned + {pub} else t.owned;
    match e
    case Sent(plain, newDh) =>
      var (s, m) := Encrypt(c, t.s, plain, newDh);
      Trace(s, t.sent + [m], keys, owned)
    case Received(m, newDh) => Trace(Decrypt(c, v, t.s, m, newDh).0, t.sent, keys, owned)
  }

  function Run(c: Primitives, v: Variant, s0: State, es: seq<Event>): Trace {
    if es == [] then Trace(s0, [], [Owned(s0.dhPublic, false)], {s0.dhPublic})
    else Step(c, v, Run(c, v, s0, es[..|es| - 1]), es[|es| - 1])
  }

  /** Every key the run draws is new to it. */
  predicate DrawsFreshKeys(c: Primitives, v: Variant, s0: State, es: seq<Event>) {
    es == [] ||
    var t, e := Run(c, v, s0, es[..|es| - 1]), es[|es| - 1];
    DrawsFreshKeys(c, v, s0, es[..|es| - 1]) && (Draws(t.s, e) ==> c.public(e.newDh) !in t.owned)
  }

  ghost predicate IsInitial(c: Primitives, s: State) {
    exists shared, secret, peer, suite :: s == Initial(c, shared, secret, peer, suite)
  }

  /** The sending side of a state: chain key, chain index and counter agree, and the chain
      starts at the send half of the current root. */
  predicate SendingOk(c: Primitives, s: State) {
    && s.dhPublic == c.public(s.dhSecret)
    && s.sendNumber <= 100 && (s.previousLength == 0 || s.previousLength == 100)
    && (s.sendChain.None? ==> s.sendNumber == 0)
    && (s.sendChain.Some? ==>
          s.sendChain.value == ChainKey(c.Advance(c.SendHalf(s.rootKey), s.sendNumber), s.sendNumber))
  }

  lemma ReceiveKeepsSending(c: Primitives, v: Variant, s: State, m: Message)
    requires s.remote.Some?
    ensures var t := Receive(c, v, s, m).0;
      && t == s.(recvChain := t.recvChain, recvNumber := t.recvNumber, skipped := t.skipped)
      && (!v.keepSkipped && s.skipped == map[] ==> t.skipped == map[])
      && (s.recvChain.Some? ==> t.recvChain.Some?)
  {
    if s.recvChain.Some? && s.recvNumber <= m.header.number {
      SkipToSpec(c, v.keepSkipped, s, m.header.number);
    }
  }

  lemma EncryptKeepsSending(c: Primitives, s: State, plain: seq<byte>, newDh: Key32)
    requires SendingOk(c, s)
    ensures var (t, m) := Encrypt(c, s, plain, newDh);
      var seed := c.SendHalf(t.rootKey);
      && SendingOk(c, t) && (DrawsOnSend(s) ==> SendingOk(c, DhSend(c, s, newDh)))
      && m.header == Header(t.dhPublic, t.previousLength, t.sendNumber - 1)
      && SealedIn(c, seed, Flight(m, plain)) && m.suite == s.suite == t.suite
      && (if DrawsOnSend(s) then t.dhPublic == c.public(newDh) && t.previousLength == s.sendNumber && t.sendNumber == 1
          else t.dhPublic == s.dhPublic && t.previousLength == s.previousLength && t.sendNumber == s.sendNumber + 1)
  {}

  lemma DecryptKeepsSending(c: Primitives, v: Variant, s: State, m: Message, newDh: Key32)
    requires SendingOk(c, s)
    ensures var t := Decrypt(c, v, s, m, newDh).0;
      && SendingOk(c, t) && t.suite == s.suite
      && (!v.keepSkipped && s.skipped == map[] ==> t.skipped == map[])
      && (if DrawsOnReceive(s, m) then t.dhPublic == c.public(newDh) && t.sendNumber == t.previousLength == 0
          else t.dhPublic == s.dhPublic && t.sendNumber == s.sendNumber && t.sendChain == s.sendChain
               && t.previousLength == s.previousLength)
  {
    var s1 := if DrawsOnReceive(s, m) then DhRecv(c, v, s, m.header.dhPub, newDh) else s;
    assert c.Advance(c.SendHalf(s1.rootKey), 0) == c.SendHalf(s1.rootKey);
    ReceiveKeepsSending(c, v, s1, m);
  }

  predicate MessagesOk(ms: seq<Message>, suite: CipherSuite) {
    forall i :: 0 <= i < |ms| ==>
      && ms[i].suite == suite && ms[i].header.number < 100
      && (ms[i].header.previousChainLength == 0 || ms[i].header.previousChainLength == 100)
  }

  /** Over any run: every message is labelled with the party's own suite, header numbers are 0
      to 99, the announced previous length is 0 or 100, chain key, index and counter agree; and
      as written no skipped key is ever held. */
  lemma {:induction false} SenderCounters(c: Primitives, v: Variant, s0: State, es: seq<Event>)
    requires IsInitial(c, s0)
    ensures var t := Run(c, v, s0, es);
      && SendingOk(c, t.s) && t.s.suite == s0.suite && MessagesOk(t.sent, s0.suite)
      && (!v.keepSkipped ==> t.s.skipped == map[])
    decreases |es|
  {
    if es != [] {
      var t, e := Run(c, v, s0, es[..|es| - 1]), es[|es| - 1];
      SenderCounters(c, v, s0, es[..|es| - 1]);
      match e
      case Sent(plain, newDh) => EncryptKeepsSending(c, t.s, plain, newDh);
      case Received(m, newDh) => DecryptKeepsSending(c, v, t.s, m, newDh);
    }
  }

  /** Headers are pairwise distinct, and those under the current DH key lie below the counter. */
  predicate NoReuse(t: Trace) {
    && t.s.dhPublic in t.owned
    && (forall i :: 0 <= i < |t.sent| ==> t.sent[i].header.dhPub in t.owned)
    && (forall i :: 0 <= i < |t.sent| && t.sent[i].header.dhPub == t.s.dhPublic ==>
          t.s.sendChain.Some? && t.sent[i].header.number < t.s.sendNumber)
    && (forall i, j :: 0 <= i < j < |t.sent| ==>
          t.sent[i].header.dhPub != t.sent[j].header.dhPub || t.sent[i].header.number != t.sent[j].header.number)
  }

  /** With fresh DH keys no (DH public, number) pair is ever sent twice. */
  lemma {:induction false} NoHeaderReuse(c: Primitives, v: Variant, s0: State, es: seq<Event>)
    requires IsInitial(c, s0) && DrawsFreshKeys(c, v, s0, es)
    ensures NoReuse(Run(c, v, s0, es))
    decreases |es|
  {
    if es != [] {
      var t, e := Run(c, v, s0, es[..|es| - 1]), es[|es| - 1];
      NoHeaderReuse(c, v, s0, es[..|es| - 1]);
      SenderCounters(c, v, s0, es[..|es| - 1]);
      match e
      case Sent(plain, newDh) => EncryptKeepsSending(c, t.s, plain, newDh);
      case Received(m, newDh) => DecryptKeepsSending(c, v, t.s, m, newDh);
    }
  }

  // ------------------------------------------------------------------
  // What a header announces
  // ------------------------------------------------------------------

  /** How many of these messages went out under a DH public. */
  function SentUnder(ms: seq<Message>, pub: Key32): nat {
    if ms == [] then 0
    else SentUnder(ms[..|ms| - 1], pub) + (if ms[|ms| - 1].header.dhPub == pub then 1 else 0)
  }

  /** What the messages under `pub` should announce: how many went out under the key owned
      just before it, if it was drawn to send; nothing, if it was drawn to receive. */
  function Announced(ms: seq<Message>, keys: seq<Owned>, pub: Key32): nat {
    if keys == [] then 0
    else
      var n := |keys| - 1;
      if keys[n].pub != pub then Announced(ms, keys[..n], pub)
      else if keys[n].toSend && n > 0 then SentUnder(ms, keys[n - 1].pub)
      else 0
  }

  predicate DistinctKeys(t: Trace) {
    && t.keys != [] && t.keys[|t.keys| - 1].pub == t.s.dhPublic
    && (forall i :: 0 <= i < |t.keys| ==> t.keys[i].pub in t.owned)
    && (forall i, j :: 0 <= i < j < |t.keys| ==> t.keys[i].pub != t.keys[j].pub)
  }

  predicate Announces(t: Trace) {
    && t.s.sendNumber == SentUnder(t.sent, t.s.dhPublic)
    && t.s.previousLength == Announced(t.sent, t.keys, t.s.dhPublic)
    && (forall i :: 0 <= i < |t.sent| ==>
          t.sent[i].header.previousChainLength == Announced(t.sent, t.keys, t.sent[i].header.dhPub))
  }

  lemma SentUnderSnoc(ms: seq<Message>, m: Message, pub: Key32)
    ensures SentUnder(ms + [m], pub) == SentUnder(ms, pub) + (if m.header.dhPub == pub then 1 else 0)
  {
    assert (ms + [m])[..|ms|] == ms;
  }

  lemma {:induction false} SentUnderNew(ms: seq<Message>, pub: Key32)
    requires forall i :: 0 <= i < |ms| ==> ms[i].header.dhPub != pub
    ensures SentUnder(ms, pub) == 0
    decreases |ms|
  {
    if ms != [] { SentUnderNew(ms[..|ms| - 1], pub); }
  }

  lemma AnnouncedLast(ms: seq<Message>, keys: seq<Owned>, k: Owned, pub: Key32)
    ensures Announced(ms, keys + [k], pub) ==
      if k.pub != pub then Announced(ms, keys, pub)
      else if k.toSend && keys != [] then SentUnder(ms, keys[|keys| - 1].pub)
      else 0
  {
    assert (keys + [k])[..|keys|] == keys;
  }

  /** A message under the last key changes nothing that is announced. */
  lemma {:induction false} AnnouncedStays(ms: seq<Message>, keys: seq<Owned>, m: Message, pub: Key32)
    requires forall i :: 0 <= i < |keys| - 1 ==> keys[i].pub != m.header.dhPub
    ensures Announced(ms + [m], keys, pub) == Announced(ms, keys, pub)
    decreases |keys|
  {
    if keys != [] {
      var n := |keys| - 1;
      if keys[n].pub != pub {
        AnnouncedStays(ms, keys[..n], m, pub);
      } else if n > 0 {
        SentUnderSnoc(ms, m, keys[n - 1].pub);
      }
    }
  }

  /** Drawing a key: the messages sent so far announce what they did. */
  lemma DrawAnnounces(t: Trace, k: Owned, s: State)
    requires DistinctKeys(t) && Announces(t) && k.pub !in t.owned && s.dhPublic == k.pub
    requires forall i :: 0 <= i < |t.sent| ==> t.sent[i].header.dhPub in t.owned
    requires s.sendNumber == 0 && s.previousLength == if k.toSend then t.s.sendNumber else 0
    ensures var u := Trace(s, t.sent, t.keys + [k], t.owned + {k.pub});
      DistinctKeys(u) && Announces(u)
  {
    var u := Trace(s, t.sent, t.keys + [k], t.owned + {k.pub});
    SentUnderNew(t.sent, k.pub);
    AnnouncedLast(t.sent, t.keys, k, k.pub);
    forall i | 0 <= i < |t.sent|
      ensures t.sent[i].header.previousChainLength == Announced(t.sent, u.keys, t.sent[i].header.dhPub)
    {
      AnnouncedLast(t.sent, t.keys, k, t.sent[i].header.dhPub);
    }
  }

  /** Sending under the current key announces what that key announces. */
  lemma SendAnnounces(t: Trace, m: Message, s: State)
    requires DistinctKeys(t) && Announces(t)
    requires s.dhPublic == t.s.dhPublic && s.sendNumber == t.s.sendNumber + 1 && s.previousLength == t.s.previousLength
    requires m.header.dhPub == s.dhPublic && m.header.previousChainLength == s.previousLength
    ensures var u := Trace(s, t.sent + [m], t.keys, t.owned);
      DistinctKeys(u) && Announces(u)
  {
    var u := Trace(s, t.sent + [m], t.keys, t.owned);
    SentUnderSnoc(t.sent, m, s.dhPublic);
    AnnouncedStays(t.sent, t.keys, m, s.dhPublic);
    forall i | 0 <= i < |u.sent|
      ensures u.sent[i].header.previousChainLength == Announced(u.sent, u.keys, u.sent[i].header.dhPub)
    {
      AnnouncedStays(t.sent, t.keys, m, u.sent[i].header.dhPub);
    }
  }

  lemma StepAnnounces(c: Primitives, v: Variant, t: Trace, e: Event)
    requires SendingOk(c, t.s) && NoReuse(t) && DistinctKeys(t) && Announces(t)
    requires Draws(t.s, e) ==> c.public(e.newDh) !in t.owned
    ensures DistinctKeys(Step(c, v, t, e)) && Announces(Step(c, v, t, e))
  {
    var k := Owned(c.public(e.newDh), e.Sent?);
    match e
    case Sent(plain, newDh) =>
      var (s, m) := Encrypt(c, t.s, plain, newDh);
      EncryptKeepsSending(c, t.s, plain, newDh);
      if DrawsOnSend(t.s) {
        var s1 := DhSend(c, t.s, newDh);
        DrawAnnounces(t, k, s1);
        SendAnnounces(Trace(s1, t.sent, t.keys + [k], t.owned + {k.pub}), m, s);
      } else {
        SendAnnounces(t, m, s);
      }
    case Received(m, newDh) =>
      DecryptKeepsSending(c, v, t.s, m, newDh);
      if DrawsOnReceive(t.s, m) { DrawAnnounces(t, k, Decrypt(c, v, t.s, m, newDh).0); }
  }

  /** Over any run with fresh DH keys, each message announces how many messages went out under
      the key owned before its own if its key was drawn to send. Under a key drawn on receipt it
      announces none, however many went out before. */
  lemma {:induction false} AnnouncedLengths(c: Primitives, v: Variant, s0: State, es: seq<Event>)
    requires IsInitial(c, s0) && DrawsFreshKeys(c, v, s0, es)
    ensures DistinctKeys(Run(c, v, s0, es)) && Announces(Run(c, v, s0, es))
    decreases |es|
  {
    if es != [] {
      var t, e := Run(c, v, s0, es[..|es| - 1]), es[|es| - 1];
      AnnouncedLengths(c, v, s0, es[..|es| - 1]);
      SenderCounters(c, v, s0, es[..|es| - 1]);
      NoHeaderReuse(c, v, s0, es[..|es| - 1]);
      StepAnnounces(c, v, t, e);
    }
  }

  // ------------------------------------------------------------------
  // What enters a root
  // ------------------------------------------------------------------

  /** Over these inputs, a root key tells the key and the DH output it was derived from. */
  ghost predicate RootTellsInputs(c: Primitives, inputs: set<(Key32, Key32)>) {
    forall x, y :: x in inputs && y in inputs && c.kdfRk(x.0, x.1) == c.kdfRk(y.0, y.1) ==> x == y
  }

  /** Two parties start from equal roots exactly when shared secret and DH output agree. */
  lemma InitialRootsIff(c: Primitives, shared: Key32, secret: Key32, peer: Key32, su: CipherSuite,
                        shared': Key32, secret': Key32, peer': Key32, su': CipherSuite)
    requires RootTellsInputs(c, {(shared, c.dh(secret, peer)), (shared', c.dh(secret', peer'))})
    ensures Initial(c, shared, secret, peer, su).rootKey == Initial(c, shared', secret', peer', su').rootKey
      <==> shared == shared' && c.dh(secret, peer) == c.dh(secret', peer')
  {
    assert (shared, c.dh(secret, peer)) == (shared', c.dh(secret', peer'))
      <==> shared == shared' && c.dh(secret, peer) == c.dh(secret', peer');
  }

  /** The inputs of the two root steps of `dh_ratchet_recv`. */
  function RecvInputs(c: Primitives, s: State, theirs: Key32, newDh: Key32): set<(Key32, Key32)> {
    {(s.rootKey, c.dh(s.dhSecret, theirs)), (FirstRoot(c, s, theirs), c.dh(newDh, theirs))}
  }

  /** Two receiving DH steps end in equal roots exactly when they start from equal roots and
      both DH outputs agree: the old key's and the new one's. */
  lemma DhRecvRootsIff(c: Primitives, v: Variant, s: State, theirs: Key32, newDh: Key32,
                       t: State, theirs': Key32, newDh': Key32)
    requires RootTellsInputs(c, RecvInputs(c, s, theirs, newDh) + RecvInputs(c, t, theirs', newDh'))
    ensures DhRecv(c, v, s, theirs, newDh).rootKey == DhRecv(c, v, t, theirs', newDh').rootKey
      <==> s.rootKey == t.rootKey && c.dh(s.dhSecret, theirs) == c.dh(t.dhSecret, theirs')
           && c.dh(newDh, theirs) == c.dh(newDh', theirs')
  {
    var x, y := (s.rootKey, c.dh(s.dhSecret, theirs)), (t.rootKey, c.dh(t.dhSecret, theirs'));
    var p, q := (FirstRoot(c, s, theirs), c.dh(newDh, theirs)), (FirstRoot(c, t, theirs'), c.dh(newDh', theirs'));
    assert x == y <==> x.0 == y.0 && x.1 == y.1;
    assert p == q <==> p.0 == q.0 && p.1 == q.1;
  }

  /** Two sending DH steps end in equal roots exactly when they start from equal roots and the
      new keys' DH outputs agree. */
  lemma DhSendRootsIff(c: Primitives, s: State, newDh: Key32, t: State, newDh': Key32)
    requires s.remote.Some? && t.remote.Some?
    requires RootTellsInputs(c, {(s.rootKey, c.dh(newDh, s.remote.value)), (t.rootKey, c.dh(newDh', t.remote.value))})
    ensures DhSend(c, s, newDh).rootKey == DhSend(c, t, newDh').rootKey
      <==> s.rootKey == t.rootKey && c.dh(newDh, s.remote.value) == c.dh(newDh', t.remote.value)
  {
    var x, y := (s.rootKey, c.dh(newDh, s.remote.value)), (t.rootKey, c.dh(newDh', t.remote.value));
    assert x == y <==> x.0 == y.0 && x.1 == y.1;
  }

  // ------------------------------------------------------------------
  // Stored keys and other DH keys
  // ------------------------------------------------------------------

  /** Both states hold the same under k, or nothing. */
  predicate HoldAlike(s: State, t: State, k: (Key32, u32)) {
    (k in s.skipped <==> k in t.skipped) && (k in s.skipped ==> s.skipped[k] == t.skipped[k])
  }

  lemma SkipKeeps(c: Primitives, keep: bool, s: State, n: u32, k: (Key32, u32))
    requires s.recvChain.Some? && s.remote.Some? && (k.0 != s.remote.value || k.1 >= n)
    ensures HoldAlike(s, SkipTo(c, keep, s, n), k)
  {
    if s.recvNumber <= n {
      SkipToSpec(c, keep, s, n);
      SkipToStores(c, s, n, k.0, k.1);
    }
  }

  lemma DecryptKeepsStored(c: Primitives, v: Variant, s: State, m: Message, newDh: Key32, k: (Key32, u32))
    requires k.0 != m.header.dhPub
    ensures HoldAlike(s, Decrypt(c, v, s, m, newDh).0, k)
  {
    var s1 := if DrawsOnReceive(s, m) then DhRecv(c, v, s, m.header.dhPub, newDh) else s;
    if s1.recvChain.Some? {
      SkipKeeps(c, v.keepSkipped, s1, m.header.number, k);
      SkipKeeps(c, true, s1, m.header.number, k);
    }
  }

  /** Over any continuation of any run, what is stored for a DH key changes only when a message
      under that very key arrives: no send, no DH step and no other message loses it. */
  lemma {:induction false} StoredKeysWait(
      c: Primitives, v: Variant, s0: State, es: seq<Event>, more: seq<Event>, k: (Key32, u32))
    requires forall i :: 0 <= i < |more| && more[i].Received? ==> more[i].m.header.dhPub != k.0
    ensures HoldAlike(Run(c, v, s0, es).s, Run(c, v, s0, es + more).s, k)
    decreases |more|
  {
    if more == [] {
      assert es + more == es;
    } else {
      var front, e := more[..|more| - 1], more[|more| - 1];
      assert (es + more)[..|es + more| - 1] == es + front && (es + more)[|es + more| - 1] == e;
      StoredKeysWait(c, v, s0, es, front, k);
      if e.Received? { DecryptKeepsStored(c, v, Run(c, v, s0, es + front).s, e.m, e.newDh, k); }
    }
  }

  /** But they wait in vain while the peer's key is another: a message under any other key than
      the last received runs a DH step, is opened as if nothing were stored, and leaves the key
      stored for it untouched. */
  lemma StoredKeyNotTried(c: Primitives, v: Variant, s: State, m: Message, newDh: Key32)
    requires DrawsOnReceive(s, m)
    ensures Decrypt(c, v, s, m, newDh).1 == Decrypt(c, v, s.(skipped := map[]), m, newDh).1
    ensures HoldAlike(s, Decrypt(c, v, s, m, newDh).0, (m.header.dhPub, m.header.number))
  {
    var s1 := DhRecv(c, v, s, m.header.dhPub, newDh);
    ReceiveAhead(c, v, s1, m);
    ReceiveAhead(c, v, DhRecv(c, v, s.(skipped := map[]), m.header.dhPub, newDh), m);
    SkipKeeps(c, v.keepSkipped, s1, m.header.number, (m.header.dhPub, m.header.number));
  }

  /** The peer's key a party was created with opens nothing: as long as messages under no other
      key arrive, none is decrypted and none changes the state. */
  lemma {:induction false} FirstKeyOpensNothing(
      c: Primitives, v: Variant, s0: State, es: seq<Event>, m: Message, newDh: Key32)
    requires IsInitial(c, s0) && s0.remote == Some(m.header.dhPub)
    requires forall i :: 0 <= i < |es| && es[i].Received? ==> es[i].m.header.dhPub == m.header.dhPub
    ensures var s := Run(c, v, s0, es).s;
      s.remote == s0.remote && s.recvChain == None && Decrypt(c, v, s, m, newDh) == (s, None)
    decreases |es|
  {
    if es != [] { FirstKeyOpensNothing(c, v, s0, es[..|es| - 1], m, newDh); }
  }
}
