/** One receiving or sending chain: closed forms of the loops, what any run of one
    party keeps, and delivery of one chain's messages in and out of order. */
module RatchetChain {
  import opened Bytes
  import opened Ratchet

  lemma {:induction false} AdvanceAdd(c: Primitives, k: Key32, m: nat, n: nat)
    ensures c.Advance(c.Advance(k, m), n) == c.Advance(k, m + n)
  {
    if n > 0 {
      AdvanceAdd(c, k, m, n - 1);
    }
  }

  /** The entry the storing loop makes for message j when it starts at number `from`. */
  function Stored(c: Primitives, chain: Key32, from: nat, j: u32): MessageKey
    requires from <= j
  {
    c.MessageKeyOf(c.Advance(chain, j - from)).(number := j)
  }

  /** A fast-forward loop steps the chain once per skipped number. */
  lemma {:induction false} SkipToSpec(c: Primitives, keep: bool, s: State, n: u32)
    requires s.recvChain.Some? && s.remote.Some? && s.recvNumber <= n
    ensures var t := SkipTo(c, keep, s, n);
      && t == s.(recvChain := t.recvChain, recvNumber := n, skipped := t.skipped)
      && t.recvChain.value.key == c.Advance(s.recvChain.value.key, n - s.recvNumber)
      && t.recvChain.value.index == (if n == s.recvNumber then s.recvChain.value.index else n - 1)
      && (!keep ==> t.skipped == s.skipped)
    decreases n - s.recvNumber
  {
    if s.recvNumber < n {
      var s1 := SkipOne(c, keep, s);
      SkipToSpec(c, keep, s1, n);
      AdvanceAdd(c, s.recvChain.value.key, 1, n - s1.recvNumber);
    }
  }

  /** The storing loop stores exactly the keys it passes. */
  lemma {:induction false} SkipToStores(c: Primitives, s: State, n: u32, p: Key32, j: u32)
    requires s.recvChain.Some? && s.remote.Some? && s.recvNumber <= n
    ensures var t := SkipTo(c, true, s, n);
      if p == s.remote.value && s.recvNumber <= j < n
      then (p, j) in t.skipped && t.skipped[(p, j)] == Stored(c, s.recvChain.value.key, s.recvNumber, j)
      else ((p, j) in t.skipped <==> (p, j) in s.skipped)
           && ((p, j) in s.skipped ==> t.skipped[(p, j)] == s.skipped[(p, j)])
    decreases n - s.recvNumber
  {
    if s.recvNumber < n {
      var s1 := SkipOne(c, true, s);
      SkipToStores(c, s1, n, p, j);
      if s1.recvNumber <= j < n {
        AdvanceAdd(c, s.recvChain.value.key, 1, j - s1.recvNumber);
      }
    }
  }

  /** A message at or above the receive counter is opened with the chain key advanced to
      its number; afterwards the counter is one past it and the chain has advanced once
      more. This holds of the code as written and of every variant. */
  lemma ReceiveAhead(c: Primitives, v: Variant, s: State, m: Message)
    requires s.remote.Some? && s.recvChain.Some? && s.recvNumber <= m.header.number
    ensures var n := m.header.number;
      var chain := s.recvChain.value.key;
      var (t, plain) := Receive(c, v, s, m);
      && plain == c.Unseal(m.suite, c.MessageKeyOf(c.Advance(chain, n - s.recvNumber)), m.ciphertext)
      && t == s.(recvChain := Some(ChainKey(c.Advance(chain, n - s.recvNumber + 1), n)),
                 recvNumber := Next32(n), skipped := t.skipped)
      && t.skipped == SkipTo(c, v.keepSkipped, s, n).skipped
  {
    SkipToSpec(c, v.keepSkipped, s, m.header.number);
  }

  /** As written, a late or repeated message finds no stored key. It is opened with the
      next fresh key, which is thereby spent: chain and counter move one step on. */
  lemma LateMessageSpendsAKey(c: Primitives, v: Variant, s: State, m: Message)
    requires s.remote.Some? && s.recvChain.Some? && m.header.number < s.recvNumber
    requires (m.header.dhPub, m.header.number) !in s.skipped
    ensures var (t, plain) := Receive(c, v, s, m);
      && plain == c.Unseal(m.suite, c.MessageKeyOf(s.recvChain.value.key), m.ciphertext)
      && t == s.(recvChain := Some(ChainKey(c.Advance(s.recvChain.value.key, 1), s.recvNumber)),
                 recvNumber := Next32(s.recvNumber))
  {}

  // ------------------------------------------------------------------
  // Delivery of one chain
  // ------------------------------------------------------------------

  /** A message together with the plaintext its sender sealed in it. */
  datatype Flight = Flight(msg: Message, plain: seq<byte>)

  /** f is message number f.msg.header.number of the chain that starts at `seed`. */
  predicate SealedIn(c: Primitives, seed: Key32, f: Flight) {
    var mk := c.MessageKeyOf(c.Advance(seed, f.msg.header.number));
    f.msg.ciphertext == c.seal(f.msg.suite, mk.key, mk.nonce, f.plain)
  }

  /** What the AEAD promises: decryption undoes encryption under the same key and nonce. */
  ghost predicate OpenInvertsSeal(c: Primitives) {
    forall su, k, n, p :: c.open(su, k, n, c.seal(su, k, n, p)) == Some(p)
  }

  /** The receive chain is the chain from `seed`, advanced to the receive counter. */
  predicate InSync(c: Primitives, s: State, seed: Key32) {
    && s.remote.Some? && s.recvChain.Some?
    && s.recvChain.value.key == c.Advance(seed, s.recvNumber)
  }

  /** Receive messages one after another, none of which triggers a DH step. */
  function ReceiveAll(c: Primitives, v: Variant, s: State, fs: seq<Flight>): (State, seq<Option<seq<byte>>>)
    requires s.remote.Some?
    decreases |fs|
  {
    if fs == [] then (s, [])
    else
      var (t, r) := Receive(c, v, s, fs[0].msg);
      var (u, rs) := ReceiveAll(c, v, t, fs[1..]);
      (u, [r] + rs)
  }

  ghost predicate OneChain(c: Primitives, seed: Key32, fs: seq<Flight>) {
    forall i :: 0 <= i < |fs| ==> SealedIn(c, seed, fs[i]) && fs[i].msg.header.number + 1 < U32
  }

  predicate Increasing(fs: seq<Flight>) {
    forall i, j :: 0 <= i < j < |fs| ==> fs[i].msg.header.number < fs[j].msg.header.number
  }

  predicate AllOpened(fs: seq<Flight>, rs: seq<Option<seq<byte>>>) {
    |rs| == |fs| && forall i :: 0 <= i < |fs| ==> rs[i] == Some(fs[i].plain)
  }

  lemma AdvanceTo(c: Primitives, chain: Key32, seed: Key32, k: nat, n: nat)
    requires chain == c.Advance(seed, k) && k <= n
    ensures c.Advance(chain, n - k) == c.Advance(seed, n) && c.Advance(chain, n - k + 1) == c.Advance(seed, n + 1)
  {
    AdvanceAdd(c, seed, k, n - k);
    AdvanceAdd(c, seed, k, n - k + 1);
  }

  lemma AheadPlain(c: Primitives, v: Variant, s: State, seed: Key32, f: Flight)
    requires OpenInvertsSeal(c) && InSync(c, s, seed) && SealedIn(c, seed, f)
    requires s.recvNumber <= f.msg.header.number
    ensures Receive(c, v, s, f.msg).1 == Some(f.plain)
  {
    ReceiveAhead(c, v, s, f.msg);
    AdvanceTo(c, s.recvChain.value.key, seed, s.recvNumber, f.msg.header.number);
  }

  lemma AheadSyncs(c: Primitives, v: Variant, s: State, seed: Key32, m: Message)
    requires InSync(c, s, seed) && s.recvNumber <= m.header.number && m.header.number + 1 < U32
    ensures var t := Receive(c, v, s, m).0;
      && InSync(c, t, seed) && t.recvNumber == m.header.number + 1
      && t == s.(recvChain := t.recvChain, recvNumber := t.recvNumber, skipped := t.skipped)
      && t.skipped == SkipTo(c, v.keepSkipped, s, m.header.number).skipped
  {
    ReceiveAhead(c, v, s, m);
    AdvanceTo(c, s.recvChain.value.key, seed, s.recvNumber, m.header.number);
  }

  /** Opening a message at or above the counter, for a receiver in sync with its chain. */
  lemma AheadOpens(c: Primitives, v: Variant, s: State, seed: Key32, f: Flight)
    requires OpenInvertsSeal(c) && InSync(c, s, seed) && SealedIn(c, seed, f)
    requires s.recvNumber <= f.msg.header.number && f.msg.header.number + 1 < U32
    ensures var (t, r) := Receive(c, v, s, f.msg);
      && r == Some(f.plain) && InSync(c, t, seed) && t.recvNumber == f.msg.header.number + 1
      && t == s.(recvChain := t.recvChain, recvNumber := t.recvNumber, skipped := t.skipped)
      && t.skipped == SkipTo(c, v.keepSkipped, s, f.msg.header.number).skipped
  {
    AheadPlain(c, v, s, seed, f);
    AheadSyncs(c, v, s, seed, f.msg);
  }

  /** Lossy delivery in order, of the code as written and of every variant: a receiver in
      sync with a chain opens any increasing subsequence of its messages, and after the
      last one its counter and its chain are one past that message. */
  lemma {:induction false} LossyInOrder(c: Primitives, v: Variant, s: State, seed: Key32, fs: seq<Flight>)
    requires OpenInvertsSeal(c) && InSync(c, s, seed) && OneChain(c, seed, fs) && Increasing(fs)
    requires fs != [] ==> s.recvNumber <= fs[0].msg.header.number
    ensures var (t, rs) := ReceiveAll(c, v, s, fs);
      && AllOpened(fs, rs) && InSync(c, t, seed)
      && t.recvNumber == (if fs == [] then s.recvNumber else fs[|fs| - 1].msg.header.number + 1)
    decreases |fs|
  {
    if fs != [] {
      AheadOpens(c, v, s, seed, fs[0]);
      LossyInOrder(c, v, Receive(c, v, s, fs[0].msg).0, seed, fs[1..]);
    }
  }

  /** Message keys of the chain from `seed` differ from number to number. */
  ghost predicate ChainKeysDistinct(c: Primitives, seed: Key32) {
    forall i: u32, j: u32 :: i < j ==> c.MessageKeyOf(c.Advance(seed, i)) != c.MessageKeyOf(c.Advance(seed, j))
  }

  /** Under the keys of its chain, each of these messages opens only under its own. */
  ghost predicate OwnKeyOnly(c: Primitives, seed: Key32, fs: seq<Flight>) {
    forall f, j: u32 :: f in fs && c.Unseal(f.msg.suite, c.MessageKeyOf(c.Advance(seed, j)), f.msg.ciphertext).Some?
      ==> c.MessageKeyOf(c.Advance(seed, j)) == c.MessageKeyOf(c.Advance(seed, f.msg.header.number))
  }

  /** Every message is above the counter and above all before it. */
  predicate InOrderFrom(fs: seq<Flight>, counter: u32) {
    Increasing(fs) && (fs != [] ==> counter <= fs[0].msg.header.number)
  }

  lemma IncreasingCons(fs: seq<Flight>)
    requires fs != [] && fs[0].msg.header.number + 1 < U32
    ensures Increasing(fs) <==> InOrderFrom(fs[1..], fs[0].msg.header.number + 1)
  {}

  lemma LateOpensNothing(c: Primitives, v: Variant, s: State, seed: Key32, f: Flight)
    requires OwnKeyOnly(c, seed, [f]) && ChainKeysDistinct(c, seed) && InSync(c, s, seed)
    requires s.skipped == map[] && f.msg.header.number < s.recvNumber
    ensures Receive(c, v, s, f.msg).1 == None
  {
    LateMessageSpendsAKey(c, v, s, f.msg);
    var n, k: u32 := f.msg.header.number, s.recvNumber;
    assert c.MessageKeyOf(c.Advance(seed, n)) != c.MessageKeyOf(c.Advance(seed, k));
    assert f in [f] && c.Unseal(f.msg.suite, c.MessageKeyOf(c.Advance(seed, k)), f.msg.ciphertext) == None;
  }

  /** The code as written discards the keys it passes, so of one chain's messages, delivered
      in any order with any losses and repeats, all are opened if and only if they come in
      increasing order. */
  lemma {:induction false} AllOpenIffInOrder(
      c: Primitives, senderHalf: bool, s: State, seed: Key32, fs: seq<Flight>)
    requires OpenInvertsSeal(c) && OwnKeyOnly(c, seed, fs) && ChainKeysDistinct(c, seed)
    requires InSync(c, s, seed) && s.skipped == map[] && OneChain(c, seed, fs)
    ensures AllOpened(fs, ReceiveAll(c, Variant(senderHalf, false), s, fs).1) <==> InOrderFrom(fs, s.recvNumber)
    decreases |fs|
  {
    if fs != [] {
      var v, f := Variant(senderHalf, false), fs[0];
      var (t, r) := Receive(c, v, s, f.msg);
      var rs := ReceiveAll(c, v, t, fs[1..]).1;
      if s.recvNumber <= f.msg.header.number {
        AheadOpens(c, v, s, seed, f);
        SkipToSpec(c, false, s, f.msg.header.number);
        AllOpenIffInOrder(c, senderHalf, t, seed, fs[1..]);
        IncreasingCons(fs);
        OpenedCons(fs, r, rs);
      } else {
        LateOpensNothing(c, v, s, seed, f);
      }
    }
  }

  lemma OpenedCons(fs: seq<Flight>, r: Option<seq<byte>>, rs: seq<Option<seq<byte>>>)
    requires fs != [] && r == Some(fs[0].plain)
    ensures AllOpened(fs, [r] + rs) <==> AllOpened(fs[1..], rs)
  {}

  predicate DistinctNumbers(fs: seq<Flight>) {
    forall i, j :: 0 <= i < j < |fs| ==> fs[i].msg.header.number != fs[j].msg.header.number
  }

  /** The receiver is in sync with the chain, has seen exactly the numbers in `seen`, and
      holds exactly the keys of the other numbers below its counter. */
  ghost predicate Exact(c: Primitives, s: State, seed: Key32, seen: set<u32>) {
    && InSync(c, s, seed)
    && (forall j :: j in seen ==> j < s.recvNumber)
    && (forall j: u32 :: (s.remote.value, j) in s.skipped <==> j < s.recvNumber && j !in seen)
    && (forall j: u32 :: (s.remote.value, j) in s.skipped ==> s.skipped[(s.remote.value, j)] == Stored(c, seed, 0, j))
  }

  lemma RepeatBreaksExact(c: Primitives, v: Variant, s: State, seed: Key32, seen: set<u32>, m: Message)
    requires Exact(c, s, seed, seen)
    requires m.header.dhPub == s.remote.value && m.header.number in seen
    ensures !Exact(c, Receive(c, v, s, m).0, seed, seen)
  {
    LateMessageSpendsAKey(c, v, s, m);
    var t := Receive(c, v, s, m).0;
    assert (t.remote.value, s.recvNumber) !in t.skipped;
  }

  lemma StoredKeyOpens(c: Primitives, v: Variant, s: State, seed: Key32, seen: set<u32>, f: Flight)
    requires OpenInvertsSeal(c) && Exact(c, s, seed, seen) && SealedIn(c, seed, f)
    requires f.msg.header.dhPub == s.remote.value
    requires f.msg.header.number < s.recvNumber && f.msg.header.number !in seen
    ensures var (t, r) := Receive(c, v, s, f.msg);
      r == Some(f.plain) && Exact(c, t, seed, seen + {f.msg.header.number})
  {}

  lemma AheadStoresAt(c: Primitives, s: State, seed: Key32, n: u32, j: u32)
    requires InSync(c, s, seed) && s.recvNumber <= n
    ensures var t := SkipTo(c, true, s, n);
      var k := (s.remote.value, j);
      if s.recvNumber <= j < n then k in t.skipped && t.skipped[k] == Stored(c, seed, 0, j)
      else (k in t.skipped <==> k in s.skipped) && (k in s.skipped ==> t.skipped[k] == s.skipped[k])
  {
    SkipToStores(c, s, n, s.remote.value, j);
    if s.recvNumber <= j < n {
      AdvanceAdd(c, seed, s.recvNumber, j - s.recvNumber);
    }
  }

  lemma AheadStores(c: Primitives, v: Variant, s: State, seed: Key32, seen: set<u32>, f: Flight)
    requires OpenInvertsSeal(c) && Exact(c, s, seed, seen) && SealedIn(c, seed, f)
    requires v.keepSkipped && s.recvNumber <= f.msg.header.number && f.msg.header.number + 1 < U32
    ensures var (t, r) := Receive(c, v, s, f.msg);
      r == Some(f.plain) && Exact(c, t, seed, seen + {f.msg.header.number})
  {
    var n := f.msg.header.number;
    AheadOpens(c, v, s, seed, f);
    forall j: u32
      ensures var t := SkipTo(c, true, s, n).skipped;
        && ((s.remote.value, j) in t <==> j < n + 1 && j !in seen + {n})
        && ((s.remote.value, j) in t ==> t[(s.remote.value, j)] == Stored(c, seed, 0, j))
    {
      AheadStoresAt(c, s, seed, n, j);
    }
  }

  /** One delivery, of any message of the chain: the stored keys stay exact when and only
      when the message had not been delivered before, and then it is opened. */
  lemma OutOfOrderStep(c: Primitives, senderHalf: bool, s: State, seed: Key32, seen: set<u32>, f: Flight)
    requires OpenInvertsSeal(c) && Exact(c, s, seed, seen) && SealedIn(c, seed, f)
    requires f.msg.header.dhPub == s.remote.value
    requires f.msg.header.number + 1 < U32
    ensures var (t, r) := Receive(c, Variant(senderHalf, true), s, f.msg);
      && (f.msg.header.number !in seen ==> r == Some(f.plain))
      && (Exact(c, t, seed, seen + {f.msg.header.number}) <==> f.msg.header.number !in seen)
  {
    var v, n := Variant(senderHalf, true), f.msg.header.number;
    if n in seen {
      RepeatBreaksExact(c, v, s, seed, seen, f.msg);
      assert seen + {n} == seen;
    } else if n < s.recvNumber {
      StoredKeyOpens(c, v, s, seed, seen, f);
    } else {
      AheadStores(c, v, s, seed, seen, f);
    }
  }

  function Numbers(fs: seq<Flight>): set<u32> {
    set i | 0 <= i < |fs| :: fs[i].msg.header.number
  }

  lemma NumbersCons(fs: seq<Flight>, seen: set<u32>)
    requires fs != []
    ensures seen + Numbers(fs) == seen + {fs[0].msg.header.number} + Numbers(fs[1..])
  {}

  /** Storing the passed keys, any order of delivery of any of the chain's messages opens
      each of them, and the map always holds exactly the undelivered numbers below the
      counter. */
  lemma {:induction false} OutOfOrder(
      c: Primitives, senderHalf: bool, s: State, seed: Key32, seen: set<u32>, fs: seq<Flight>)
    requires OpenInvertsSeal(c) && Exact(c, s, seed, seen) && OneChain(c, seed, fs) && DistinctNumbers(fs)
    requires forall i :: 0 <= i < |fs| ==> fs[i].msg.header.dhPub == s.remote.value && fs[i].msg.header.number !in seen
    ensures var (t, rs) := ReceiveAll(c, Variant(senderHalf, true), s, fs);
      AllOpened(fs, rs) && Exact(c, t, seed, seen + Numbers(fs))
    decreases |fs|
  {
    if fs != [] {
      OutOfOrderStep(c, senderHalf, s, seed, seen, fs[0]);
      NumbersCons(fs, seen);
      var t := Receive(c, Variant(senderHalf, true), s, fs[0].msg).0;
      OutOfOrder(c, senderHalf, t, seed, seen + {fs[0].msg.header.number}, fs[1..]);
    }
  }
}
