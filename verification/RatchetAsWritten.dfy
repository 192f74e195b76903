/** What the code as written delivers, over any network: nothing. */
module RatchetAsWritten {
  import opened Bytes
  import opened Ratchet
  import opened RatchetChain
  import opened RatchetSystem
  import RatchetParty

  // ------------------------------------------------------------------
  // Keys of the receive half
  // ------------------------------------------------------------------

  /** The message key at position i of the receive half of a root. */
  function RecvKey(c: Primitives, root: Key32, i: nat): MessageKey {
    c.MessageKeyOf(c.Advance(c.RecvHalf(root), i))
  }

  ghost predicate RecvSideChain(c: Primitives, chain: Key32, roots: set<Key32>, limit: nat) {
    exists x, i: nat :: x in roots && i <= limit && chain == c.Advance(c.RecvHalf(x), i)
  }

  ghost predicate RecvSideKey(c: Primitives, mk: MessageKey, roots: set<Key32>, limit: nat) {
    exists x, i: nat :: x in roots && i <= limit && RecvKey(c, x, i) == mk.(number := 0)
  }

  ghost predicate RecvSideKeys(c: Primitives, skipped: map<(Key32, u32), MessageKey>, roots: set<Key32>, limit: nat) {
    forall k: (Key32, u32) :: k in skipped ==> RecvSideKey(c, skipped[k], roots, limit)
  }

  /** The receive chain and every stored key of r stem from the receive half of a root, at
      most `limit` steps on. */
  ghost predicate RecvSide(c: Primitives, r: State, roots: set<Key32>, limit: nat) {
    && (r.recvChain.Some? ==> RecvSideChain(c, r.recvChain.value.key, roots, limit))
    && RecvSideKeys(c, r.skipped, roots, limit)
  }

  lemma RecvSideGrows(c: Primitives, r: State, roots: set<Key32>, limit: nat, more: set<Key32>, later: nat)
    requires RecvSide(c, r, roots, limit) && roots <= more && limit <= later
    ensures RecvSide(c, r, more, later)
  {}

  lemma RecvSideAdvances(c: Primitives, chain: Key32, n: nat, roots: set<Key32>, limit: nat)
    requires RecvSideChain(c, chain, roots, limit)
    ensures RecvSideChain(c, c.Advance(chain, n), roots, limit + n)
    ensures RecvSideKey(c, c.MessageKeyOf(c.Advance(chain, n)), roots, limit + n)
  {
    var x, i: nat :| x in roots && i <= limit && chain == c.Advance(c.RecvHalf(x), i);
    AdvanceAdd(c, c.RecvHalf(x), i, n);
    assert c.Advance(chain, n) == c.Advance(c.RecvHalf(x), i + n);
    assert RecvKey(c, x, i + n) == c.MessageKeyOf(c.Advance(chain, n));
  }

  lemma RecvSideStored(c: Primitives, chain: Key32, from: nat, j: u32, roots: set<Key32>, limit: nat)
    requires RecvSideChain(c, chain, roots, limit) && from <= j
    ensures RecvSideKey(c, Stored(c, chain, from, j), roots, limit + (j - from))
  {
    RecvSideAdvances(c, chain, j - from, roots, limit);
    var x, i: nat :| x in roots && i <= limit + (j - from)
      && RecvKey(c, x, i) == c.MessageKeyOf(c.Advance(chain, j - from)).(number := 0);
    assert Stored(c, chain, from, j).(number := 0) == RecvKey(c, x, i);
  }

  lemma SkipToRecvSide(c: Primitives, keep: bool, r: State, n: u32, roots: set<Key32>, limit: nat)
    requires r.remote.Some? && r.recvChain.Some? && RecvSide(c, r, roots, limit) && r.recvNumber <= n
    ensures RecvSideKeys(c, SkipTo(c, keep, r, n).skipped, roots, limit + n)
  {
    SkipToSpec(c, keep, r, n);
    var t := SkipTo(c, keep, r, n).skipped;
    forall k: (Key32, u32) | k in t ensures RecvSideKey(c, t[k], roots, limit + n) {
      if keep {
        SkipToStores(c, r, n, k.0, k.1);
        if k.0 == r.remote.value && r.recvNumber <= k.1 < n {
          RecvSideStored(c, r.recvChain.value.key, r.recvNumber, k.1, roots, limit);
        } else {
          assert k in r.skipped;
        }
      } else {
        assert t == r.skipped;
      }
    }
  }

  /** Receiving m with this key of the receive half leaves only such keys behind. */
  ghost predicate TriesRecvKey(
      c: Primitives, v: Variant, r: State, m: Message, mk: MessageKey, roots: set<Key32>, limit: nat)
    requires r.remote.Some?
  {
    var (t, plain) := Receive(c, v, r, m);
    plain == c.Unseal(m.suite, mk, m.ciphertext) && RecvSideKey(c, mk, roots, limit) && RecvSide(c, t, roots, limit)
  }

  lemma AheadRecvSide(c: Primitives, v: Variant, r: State, m: Message, roots: set<Key32>, limit: nat)
    returns (mk: MessageKey)
    requires r.remote.Some? && r.recvChain.Some? && RecvSide(c, r, roots, limit)
    requires r.recvNumber <= m.header.number < 100
    ensures TriesRecvKey(c, v, r, m, mk, roots, limit + 100)
  {
    var chain, n := r.recvChain.value.key, m.header.number - r.recvNumber;
    ReceiveAhead(c, v, r, m);
    mk := c.MessageKeyOf(c.Advance(chain, n));
    RecvSideAdvances(c, chain, n, roots, limit);
    RecvSideAdvances(c, chain, n + 1, roots, limit);
    SkipToRecvSide(c, v.keepSkipped, r, m.header.number, roots, limit);
  }

  lemma LateRecvSide(c: Primitives, v: Variant, r: State, m: Message, roots: set<Key32>, limit: nat)
    returns (mk: MessageKey)
    requires r.remote.Some? && r.recvChain.Some? && RecvSide(c, r, roots, limit)
    requires m.header.number < r.recvNumber
    ensures TriesRecvKey(c, v, r, m, mk, roots, limit + 100)
  {
    var k: (Key32, u32) := (m.header.dhPub, m.header.number);
    RecvSideGrows(c, r, roots, limit, roots, limit + 100);
    if k in r.skipped {
      mk := r.skipped[k];
    } else {
      LateMessageSpendsAKey(c, v, r, m);
      mk := c.MessageKeyOf(r.recvChain.value.key);
      RecvSideAdvances(c, r.recvChain.value.key, 0, roots, limit);
      RecvSideAdvances(c, r.recvChain.value.key, 1, roots, limit);
    }
  }

  /** One receipt tries only keys of the receive half, and goes at most 100 steps further. */
  lemma ReceiveRecvSide(c: Primitives, v: Variant, r: State, m: Message, roots: set<Key32>, limit: nat)
    returns (mk: MessageKey)
    requires r.remote.Some? && r.recvChain.Some? && RecvSide(c, r, roots, limit) && m.header.number < 100
    ensures TriesRecvKey(c, v, r, m, mk, roots, limit + 100)
  {
    if r.recvNumber <= m.header.number {
      mk := AheadRecvSide(c, v, r, m, roots, limit);
    } else {
      mk := LateRecvSide(c, v, r, m, roots, limit);
    }
  }

  // ------------------------------------------------------------------
  // Every run, over any network
  // ------------------------------------------------------------------

  /** Nothing has been sent, received or stored yet. */
  predicate Silent(c: Primitives, s: System) {
    && RatchetParty.SendingOk(c, s.a) && RatchetParty.SendingOk(c, s.b)
    && s.a.remote.Some? && s.b.remote.Some? && s.a.recvChain.None? && s.b.recvChain.None?
    && s.a.skipped == map[] && s.b.skipped == map[] && s.ab == [] && s.ba == [] && s.sent == []
  }

  predicate AllSent(ch: Channel, sent: seq<Transit>) {
    forall i :: 0 <= i < |ch| ==> ch[i] in sent
  }

  predicate SealedUnder(c: Primitives, sent: seq<Transit>, roots: set<Key32>) {
    forall t :: t in sent ==> Sealed(c, t) && t.root in roots
  }

  predicate PartyOk(c: Primitives, r: State) {
    RatchetParty.SendingOk(c, r) && r.remote.Some?
  }

  /** What every run keeps, with any network and any number of messages on a chain. */
  ghost predicate Traced(c: Primitives, s: System, limit: nat) {
    && PartyOk(c, s.a) && PartyOk(c, s.b)
    && RecvSide(c, s.a, s.roots, limit) && RecvSide(c, s.b, s.roots, limit)
    && AllSent(s.ab, s.sent) && AllSent(s.ba, s.sent) && SealedUnder(c, s.sent, s.roots)
  }

  lemma SendTraced(c: Primitives, s: System, plain: seq<byte>, newDh: Key32, limit: nat)
    requires Traced(c, s, limit)
    ensures Traced(c, SendA(c, s, plain, newDh), limit + 100)
  {
    var u := SendA(c, s, plain, newDh);
    RatchetParty.EncryptKeepsSending(c, s.a, plain, newDh);
    RecvSideGrows(c, s.a, s.roots, limit, u.roots, limit + 100);
    RecvSideGrows(c, s.b, s.roots, limit, u.roots, limit + 100);
    assert Sealed(c, u.ab[|s.ab|]);
  }

  /** The DH step of a delivery starts a receive chain at the receive half of a new root. */
  lemma RatchetTraced(c: Primitives, v: Variant, s: System, i: nat, newDh: Key32, limit: nat)
    requires !v.senderHalf && Traced(c, s, limit) && i < |s.ab|
    ensures Traced(c, RatchetB(c, v, s, i, newDh), limit)
  {
    var m := s.ab[i].msg;
    var t := RatchetB(c, v, s, i, newDh);
    if DrawsOnReceive(s.b, m) {
      assert t.b.recvChain.value.key == c.Advance(c.RecvHalf(t.b.rootKey), 0);
      assert c.Advance(c.SendHalf(t.b.rootKey), 0) == c.SendHalf(t.b.rootKey);
      RecvSideGrows(c, s.a, s.roots, limit, t.roots, limit);
      RecvSideGrows(c, s.b.(recvChain := None), s.roots, limit, t.roots, limit);
    }
  }

  lemma ReceiveTraced(c: Primitives, v: Variant, s: System, i: nat, limit: nat)
    requires Traced(c, s, limit) && i < |s.ab|
    ensures Traced(c, ReceiveB(c, v, s, i), limit + 100)
  {
    var m, w := s.ab[i].msg, Without(s.ab, i);
    assert Sealed(c, s.ab[i]);
    RatchetParty.ReceiveKeepsSending(c, v, s.b, m);
    RecvSideGrows(c, s.a, s.roots, limit, s.roots, limit + 100);
    RecvSideGrows(c, s.b, s.roots, limit, s.roots, limit + 100);
    if s.b.recvChain.Some? { var mk := ReceiveRecvSide(c, v, s.b, m, s.roots, limit); }
    WithoutSent(s.ab, s.sent, i);
  }

  lemma WithoutSent(ch: Channel, sent: seq<Transit>, i: nat)
    requires AllSent(ch, sent) && i < |ch|
    ensures AllSent(Without(ch, i), sent)
  {
    var w := Without(ch, i);
    forall k | 0 <= k < |w| ensures w[k] in sent { assert w[k] == ch[if k < i then k else k + 1]; }
  }

  lemma TracedGrows(c: Primitives, s: System, limit: nat)
    requires Traced(c, s, limit)
    ensures Traced(c, s, limit + 100)
  {
    RecvSideGrows(c, s.a, s.roots, limit, s.roots, limit + 100);
    RecvSideGrows(c, s.b, s.roots, limit, s.roots, limit + 100);
  }

  lemma ActTraced(c: Primitives, v: Variant, t: System, e: Event, limit: nat)
    requires !v.senderHalf && Traced(c, t, limit)
    ensures Traced(c, Act(c, v, t, e), limit + 100)
  {
    TracedGrows(c, t, limit);
    match e
    case Send(_, plain, newDh) => SendTraced(c, t, plain, newDh, limit);
    case Deliver(_, i, newDh) =>
      if i < |t.ab| {
        RatchetTraced(c, v, t, i, newDh, limit);
        ReceiveTraced(c, v, RatchetB(c, v, t, i, newDh), i, limit);
      }
    case Drop(_, i) =>
      if i < |t.ab| { WithoutSent(t.ab, t.sent, i); }
    case Duplicate(_, i) =>
  }

  lemma TracedSwaps(c: Primitives, s: System, limit: nat)
    ensures Traced(c, Swap(s), limit) <==> Traced(c, s, limit)
  {}

  lemma {:induction false} RunTraced(c: Primitives, v: Variant, s0: System, es: seq<Event>)
    requires !v.senderHalf && Silent(c, s0)
    ensures Traced(c, Run(c, v, s0, es), 100 * |es|)
    decreases |es|
  {
    if es != [] {
      var s, e := Run(c, v, s0, es[..|es| - 1]), es[|es| - 1];
      RunTraced(c, v, s0, es[..|es| - 1]);
      TracedSwaps(c, s, 100 * |es| - 100);
      ActTraced(c, v, Seat(s, e), e, 100 * |es| - 100);
      TracedSwaps(c, Act(c, v, Seat(s, e), e), 100 * |es|);
    }
  }

  // ------------------------------------------------------------------
  // Laws and theorem
  // ------------------------------------------------------------------

  /** Over these roots, no receive-half key up to `limit` is a key that seals a message. */
  ghost predicate HalvesSeparate(c: Primitives, roots: set<Key32>, limit: nat) {
    forall x, y, i: nat, j: nat :: x in roots && y in roots && i <= limit && j < 100
      ==> RecvKey(c, x, i) != c.MessageKeyOf(c.Advance(c.SendHalf(y), j))
  }

  /** These messages open under a receive-half key of these roots only if it sealed them. */
  ghost predicate OpensOnlyOwnKey(c: Primitives, sent: seq<Transit>, roots: set<Key32>, limit: nat) {
    forall t, x, i: nat :: t in sent && x in roots && i <= limit ==>
      (c.Unseal(t.msg.suite, RecvKey(c, x, i), t.msg.ciphertext).Some? ==> RecvKey(c, x, i) == t.Key(c))
  }

  /** The two laws, of the roots, positions and messages of one run. */
  ghost predicate KeysSeparate(c: Primitives, v: Variant, s0: System, es: seq<Event>) {
    var s := Run(c, v, s0, es);
    HalvesSeparate(c, s.roots, 100 * |es|) && OpensOnlyOwnKey(c, s.sent, s.roots, 100 * |es|)
  }

  lemma RecvSideKeyOpensNothing(c: Primitives, mk: MessageKey, t: Transit, s: System, limit: nat)
    requires HalvesSeparate(c, s.roots, limit) && OpensOnlyOwnKey(c, s.sent, s.roots, limit)
    requires RecvSideKey(c, mk, s.roots, limit) && t in s.sent && Sealed(c, t) && t.root in s.roots
    ensures c.Unseal(t.msg.suite, mk, t.msg.ciphertext) == None
  {
    var x, i: nat :| x in s.roots && i <= limit && RecvKey(c, x, i) == mk.(number := 0);
    assert RecvKey(c, x, i) != t.Key(c);
    assert c.Unseal(t.msg.suite, RecvKey(c, x, i), t.msg.ciphertext) == c.Unseal(t.msg.suite, mk, t.msg.ciphertext);
  }

  /** As written, whatever the network loses, reorders or repeats, whoever speaks first and
      however many messages a chain carries: every delivery of every run returns nothing. */
  lemma {:induction false} NothingDelivered(
      c: Primitives, v: Variant, s0: System, es: seq<Event>, to: Party, at: nat, newDh: Key32)
    requires !v.senderHalf && Silent(c, s0) && at < |Facing(Run(c, v, s0, es), to).ab|
    requires KeysSeparate(c, v, s0, es + [Deliver(to, at, newDh)])
    ensures var s := Facing(Run(c, v, s0, es), to);
      Decrypt(c, v, s.b, s.ab[at].msg, newDh).1 == None
  {
    var e := Deliver(to, at, newDh);
    var s, limit := Facing(Run(c, v, s0, es), to), 100 * |es|;
    RunTraced(c, v, s0, es);
    TracedSwaps(c, Run(c, v, s0, es), limit);
    RatchetTraced(c, v, s, at, newDh, limit);
    var t := RatchetB(c, v, s, at, newDh);
    RunSnoc(c, v, s0, es, e);
    assert t.ab[at] in t.sent && Sealed(c, t.ab[at]);
    if t.b.recvChain.Some? {
      var mk := ReceiveRecvSide(c, v, t.b, t.ab[at].msg, t.roots, limit);
      RecvSideKeyOpensNothing(c, mk, t.ab[at], t, limit + 100);
    }
  }
}
