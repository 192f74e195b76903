/** When group keys are equal: what a ratchet changes, and who is locked out by it. */
module GroupSecrecy {
  import opened Bytes
  import opened BigEndian
  import opened Fields
  import opened GroupKeys

  // ------------------------------------------------------------------
  // What is hashed
  // ------------------------------------------------------------------

  function Label(): seq<byte> { Ascii("zero-group-sender-key-v1") }

  function SenderInput(group: Id, member: Id, epoch: u32): seq<byte> {
    Label() + group + member + Encode(epoch, 4)
  }

  function RatchetInput(previous: Key32, epoch: u32): seq<byte> {
    previous + Encode(epoch, 4) + Ascii("zero-group-ratchet")
  }

  /** Everything hashed on the way to the current key after n ratchets. */
  function CurrentInputs(c: Primitives, group: Id, creator: Id, n: nat): set<seq<byte>> {
    if n == 0 then {SenderInput(group, creator, n)}
    else CurrentInputs(c, group, creator, n - 1) + {RatchetInput(KeyAfter(c, group, creator, n - 1), n % U32)}
  }

  /** Over these inputs SHA-256 merges no two, and gives no digest that reads as the label. */
  ghost predicate DigestSeparates(c: Primitives, inputs: set<seq<byte>>) {
    && (forall x, y {:trigger x in inputs, y in inputs} ::
          x in inputs && y in inputs && c.sha(x) == c.sha(y) ==> x == y)
    && (forall x {:trigger x in inputs} :: x in inputs ==> c.sha(x)[..24] != Label())
  }

  lemma SameStarts(x: seq<byte>, u: seq<byte>, v: seq<byte>)
    ensures x + u == x + v <==> u == v
  {
    assert (x + u)[|x|..] == u && (x + v)[|x|..] == v;
  }

  lemma SenderInputShape(group: Id, member: Id, epoch: u32)
    ensures SenderInput(group, member, epoch) == (Label() + (group + member)) + Encode(epoch, 4)
    ensures |Label()| == 24 && SenderInput(group, member, epoch)[..24] == Label()
  {
    assert Label() + group + member == Label() + (group + member);
  }

  lemma SenderInputsIff(g: Id, m: Id, e: u32, h: Id, l: Id, f: u32)
    ensures SenderInput(g, m, e) == SenderInput(h, l, f) <==> g + m == h + l && e == f
  {
    SenderInputShape(g, m, e);
    SenderInputShape(h, l, f);
    SameEnds(Label() + (g + m), Label() + (h + l), Encode(e, 4), Encode(f, 4));
    SameStarts(Label(), g + m, h + l);
    EncodeTells(e, f);
  }

  lemma RatchetInputsIff(k: Key32, e: u32, l: Key32, f: u32)
    ensures RatchetInput(k, e) == RatchetInput(l, f) <==> k == l && e == f
  {
    var t := Ascii("zero-group-ratchet");
    SameEnds(k + Encode(e, 4), l + Encode(f, 4), t, t);
    SameEnds(k, l, Encode(e, 4), Encode(f, 4));
    EncodeTells(e, f);
  }

  lemma InputsApart(k: Key32, e: u32, g: Id, m: Id, f: u32)
    requires k[..24] != Label()
    ensures RatchetInput(k, e) != SenderInput(g, m, f)
  {
    SenderInputShape(g, m, f);
    assert RatchetInput(k, e)[..24] == k[..24];
  }

  // ------------------------------------------------------------------
  // When keys are equal
  // ------------------------------------------------------------------

  /** Two sender keys are equal exactly when group and member concatenate to the same bytes in
      the same epoch. */
  lemma SenderKeysIff(c: Primitives, inputs: set<seq<byte>>, g: Id, m: Id, e: u32, h: Id, l: Id, f: u32)
    requires DigestSeparates(c, inputs) && SenderInput(g, m, e) in inputs && SenderInput(h, l, f) in inputs
    ensures SenderKey(c, g, m, e) == SenderKey(c, h, l, f) <==> g + m == h + l && e == f
  {
    SenderInputsIff(g, m, e, h, l, f);
  }

  /** One ratchet keeps different keys different, and different epochs too. */
  lemma DerivedKeysIff(c: Primitives, inputs: set<seq<byte>>, k: Key32, e: u32, l: Key32, f: u32)
    requires DigestSeparates(c, inputs) && RatchetInput(k, e) in inputs && RatchetInput(l, f) in inputs
    ensures DeriveKey(c, k, e) == DeriveKey(c, l, f) <==> k == l && e == f
  {
    RatchetInputsIff(k, e, l, f);
  }

  /** The input whose digest the current key is. */
  function LastInput(c: Primitives, group: Id, creator: Id, n: nat): (x: seq<byte>)
    ensures x in CurrentInputs(c, group, creator, n)
  {
    if n == 0 then SenderInput(group, creator, n) else RatchetInput(KeyAfter(c, group, creator, n - 1), n % U32)
  }

  lemma {:induction false} WhichInput(c: Primitives, group: Id, creator: Id, n: nat, x: seq<byte>) returns (i: nat)
    requires x in CurrentInputs(c, group, creator, n)
    ensures i <= n && x == LastInput(c, group, creator, i)
    decreases n
  {
    i := n;
    if x != LastInput(c, group, creator, n) { i := WhichInput(c, group, creator, n - 1, x); }
  }

  lemma KeyIsDigest(c: Primitives, group: Id, creator: Id, n: nat)
    ensures KeyAfter(c, group, creator, n) == c.sha(LastInput(c, group, creator, n))
  {}

  lemma EqualDigests(c: Primitives, inputs: set<seq<byte>>, x: seq<byte>, y: seq<byte>)
    requires DigestSeparates(c, inputs) && x in inputs && y in inputs
    ensures c.sha(x) == c.sha(y) <==> x == y
    ensures c.sha(x)[..24] != Label()
  {}

  /** Two current keys are equal exactly when their last inputs are. */
  lemma LastInputsIff(c: Primitives, inputs: set<seq<byte>>, g: Id, a: Id, n: nat, h: Id, b: Id, m: nat)
    requires DigestSeparates(c, inputs) && CurrentInputs(c, g, a, n) <= inputs && CurrentInputs(c, h, b, m) <= inputs
    ensures KeyAfter(c, g, a, n) == KeyAfter(c, h, b, m) <==> LastInput(c, g, a, n) == LastInput(c, h, b, m)
  {
    KeyIsDigest(c, g, a, n);
    KeyIsDigest(c, h, b, m);
    EqualDigests(c, inputs, LastInput(c, g, a, n), LastInput(c, h, b, m));
  }

  /** A current key after a ratchet is no sender key. */
  lemma RatchetedIsNoSenderKey(
      c: Primitives, inputs: set<seq<byte>>, h: Id, b: Id, n: nat, g: Id, m: Id, e: u32)
    requires n > 0 && DigestSeparates(c, inputs)
    requires CurrentInputs(c, h, b, n) <= inputs && SenderInput(g, m, e) in inputs
    ensures LastInput(c, h, b, n) != SenderInput(g, m, e)
    ensures KeyAfter(c, h, b, n) != SenderKey(c, g, m, e)
  {
    KeyIsDigest(c, h, b, n);
    KeyIsDigest(c, h, b, n - 1);
    EqualDigests(c, inputs, LastInput(c, h, b, n - 1), LastInput(c, h, b, n - 1));
    InputsApart(KeyAfter(c, h, b, n - 1), n % U32, g, m, e);
    EqualDigests(c, inputs, LastInput(c, h, b, n), SenderInput(g, m, e));
  }

  lemma FirstInputsTell(c: Primitives, g: Id, a: Id, h: Id, b: Id, n: nat)
    requires n == 0
    ensures LastInput(c, g, a, n) == LastInput(c, h, b, n) <==> g + a == h + b
  {
    SenderInputsIff(g, a, n, h, b, n);
  }

  lemma {:induction false} InputsGrow(c: Primitives, group: Id, creator: Id, i: nat, n: nat)
    requires i <= n
    ensures CurrentInputs(c, group, creator, i) <= CurrentInputs(c, group, creator, n)
    decreases n
  {
    if i < n { InputsGrow(c, group, creator, i, n - 1); }
  }

  lemma StepBack(c: Primitives, inputs: set<seq<byte>>, g: Id, a: Id, n: nat, h: Id, b: Id, m: nat)
    requires DigestSeparates(c, inputs) && CurrentInputs(c, g, a, n) <= inputs && CurrentInputs(c, h, b, m) <= inputs
    requires n > 0 && m > 0 && KeyAfter(c, g, a, n) == KeyAfter(c, h, b, m)
    ensures KeyAfter(c, g, a, n - 1) == KeyAfter(c, h, b, m - 1)
  {
    LastInputsIff(c, inputs, g, a, n, h, b, m);
    RatchetInputsIff(KeyAfter(c, g, a, n - 1), n % U32, KeyAfter(c, h, b, m - 1), m % U32);
  }

  lemma EqualKeys(c: Primitives, inputs: set<seq<byte>>, g: Id, a: Id, n: nat, h: Id, b: Id, m: nat)
    requires DigestSeparates(c, inputs) && CurrentInputs(c, g, a, n) <= inputs && CurrentInputs(c, h, b, m) <= inputs
    requires KeyAfter(c, g, a, n) == KeyAfter(c, h, b, m)
    ensures n == 0 <==> m == 0
    ensures n > 0 && m > 0 ==> KeyAfter(c, g, a, n - 1) == KeyAfter(c, h, b, m - 1)
  {
    if n > 0 && m > 0 {
      StepBack(c, inputs, g, a, n, h, b, m);
    } else if n > 0 {
      RatchetedIsNoSenderKey(c, inputs, g, a, n, h, b, m);
    } else if m > 0 {
      RatchetedIsNoSenderKey(c, inputs, h, b, m, g, a, n);
    }
  }

  /** Two lists in which equal elements have equal predecessors, and no first element recurs. */
  predicate StepsBack(s: seq<Key32>, t: seq<Key32>) {
    forall i, j :: 0 <= i < |s| && 0 <= j < |t| && s[i] == t[j] ==>
      (i == 0 <==> j == 0) && (i > 0 && j > 0 ==> s[i - 1] == t[j - 1])
  }

  /** Such lists meet only in step. */
  lemma {:induction false} MeetInStep(s: seq<Key32>, t: seq<Key32>, n: nat, m: nat)
    requires n < |s| && m < |t| && StepsBack(s, t) && s[n] == t[m]
    ensures n == m && s[0] == t[0]
    decreases n
  {
    if n > 0 && m > 0 { MeetInStep(s, t, n - 1, m - 1); }
  }

  /** The current keys of a group up to its nth ratchet. */
  function KeysUpTo(c: Primitives, group: Id, creator: Id, n: nat): (keys: seq<Key32>)
    ensures |keys| == n + 1 && forall i :: 0 <= i <= n ==> keys[i] == KeyAfter(c, group, creator, i)
  {
    seq(n + 1, i requires 0 <= i => KeyAfter(c, group, creator, i))
  }

  lemma KeysStepBack(c: Primitives, inputs: set<seq<byte>>, g: Id, a: Id, n: nat, h: Id, b: Id, m: nat)
    requires DigestSeparates(c, inputs) && CurrentInputs(c, g, a, n) <= inputs && CurrentInputs(c, h, b, m) <= inputs
    ensures StepsBack(KeysUpTo(c, g, a, n), KeysUpTo(c, h, b, m))
  {
    var s, t := KeysUpTo(c, g, a, n), KeysUpTo(c, h, b, m);
    forall i, j | 0 <= i < |s| && 0 <= j < |t| && s[i] == t[j]
      ensures (i == 0 <==> j == 0) && (i > 0 && j > 0 ==> s[i - 1] == t[j - 1])
    {
      InputsGrow(c, g, a, i, n);
      InputsGrow(c, h, b, j, m);
      EqualKeys(c, inputs, g, a, i, h, b, j);
    }
  }

  lemma SameKeySameHistory(c: Primitives, inputs: set<seq<byte>>, g: Id, a: Id, n: nat, h: Id, b: Id, m: nat)
    requires DigestSeparates(c, inputs) && CurrentInputs(c, g, a, n) <= inputs && CurrentInputs(c, h, b, m) <= inputs
    requires KeyAfter(c, g, a, n) == KeyAfter(c, h, b, m)
    ensures n == m && KeyAfter(c, g, a, 0) == KeyAfter(c, h, b, 0)
  {
    KeysStepBack(c, inputs, g, a, n, h, b, m);
    MeetInStep(KeysUpTo(c, g, a, n), KeysUpTo(c, h, b, m), n, m);
  }

  lemma FirstKeysIff(c: Primitives, inputs: set<seq<byte>>, g: Id, a: Id, h: Id, b: Id, n: nat)
    requires n == 0 && DigestSeparates(c, inputs)
    requires CurrentInputs(c, g, a, n) <= inputs && CurrentInputs(c, h, b, n) <= inputs
    ensures KeyAfter(c, g, a, n) == KeyAfter(c, h, b, n) <==> g + a == h + b
  {
    LastInputsIff(c, inputs, g, a, n, h, b, n);
    FirstInputsTell(c, g, a, h, b, n);
  }

  lemma SameStep(c: Primitives, g: Id, a: Id, h: Id, b: Id, n: nat)
    requires n > 0 && KeyAfter(c, g, a, n - 1) == KeyAfter(c, h, b, n - 1)
    ensures KeyAfter(c, g, a, n) == KeyAfter(c, h, b, n)
  {}

  lemma {:induction false} SameStartSameKey(c: Primitives, g: Id, a: Id, h: Id, b: Id, n: nat)
    requires KeyAfter(c, g, a, 0) == KeyAfter(c, h, b, 0)
    ensures KeyAfter(c, g, a, n) == KeyAfter(c, h, b, n)
    decreases n
  {
    if n > 0 {
      SameStartSameKey(c, g, a, h, b, n - 1);
      SameStep(c, g, a, h, b, n);
    }
  }

  /** Two current keys are equal exactly when group and creator concatenate to the same bytes
      and both were ratcheted equally often. */
  lemma CurrentKeysIff(c: Primitives, inputs: set<seq<byte>>, g: Id, a: Id, n: nat, h: Id, b: Id, m: nat)
    requires DigestSeparates(c, inputs) && CurrentInputs(c, g, a, n) <= inputs && CurrentInputs(c, h, b, m) <= inputs
    ensures KeyAfter(c, g, a, n) == KeyAfter(c, h, b, m) <==> g + a == h + b && n == m
  {
    InputsGrow(c, g, a, 0, n);
    InputsGrow(c, h, b, 0, m);
    FirstKeysIff(c, inputs, g, a, h, b, 0);
    if KeyAfter(c, g, a, n) == KeyAfter(c, h, b, m) { SameKeySameHistory(c, inputs, g, a, n, h, b, m); }
    if g + a == h + b { SameStartSameKey(c, g, a, h, b, n); }
  }

  // ------------------------------------------------------------------
  // What a ratchet changes
  // ------------------------------------------------------------------

  /** Everything hashed for the keys a summary describes. */
  function InputsOf(c: Primitives, group: Id, s: Summary): set<seq<byte>> {
    CurrentInputs(c, group, s.creator, s.ratchets)
    + set member | member in s.members :: SenderInput(group, member, s.ratchets % U32)
  }

  /** No operation of these creates the group. */
  predicate NotRecreated(ops: seq<Op>, group: Id) {
    forall i :: 0 <= i < |ops| ==> !(ops[i].Create? && ops[i].group == group)
  }

  lemma {:induction false} RatchetsGrow(ops: seq<Op>, more: seq<Op>, group: Id)
    requires Summarize(ops, group).Some? && NotRecreated(more, group)
    ensures var s, t := Summarize(ops, group), Summarize(ops + more, group);
      t.Some? && t.value.creator == s.value.creator && t.value.ratchets >= s.value.ratchets
    decreases |more|
  {
    if more == [] {
      assert ops + more == ops;
    } else {
      assert (ops + more)[..|ops + more| - 1] == ops + more[..|more| - 1];
      assert (ops + more)[|ops + more| - 1] == more[|more| - 1];
      RatchetsGrow(ops, more[..|more| - 1], group);
    }
  }

  predicate Ratchets(op: Op, group: Id) {
    (op.Ratchet? || op.Remove?) && op.group == group
  }

  lemma AfterRatchet(ops: seq<Op>, op: Op, group: Id)
    requires Summarize(ops, group).Some? && Ratchets(op, group)
    ensures var s := Summarize(ops, group).value;
      Summarize(ops + [op], group) == Some(s.(ratchets := s.ratchets + 1, members := {}))
  {
    assert (ops + [op])[..|ops|] == ops;
  }

  /** After a ratchet or a removal the current key is one the group never had since it was
      created: neither a current key nor any member's key. */
  lemma {:induction false} RatchetMakesNewKey(c: Primitives, ops: seq<Op>, more: seq<Op>, op: Op, group: Id)
    requires Summarize(ops, group).Some? && NotRecreated(more, group) && Ratchets(op, group)
    requires var s, t := Summarize(ops, group).value, Summarize(ops + more + [op], group);
      t.Some? && DigestSeparates(c, InputsOf(c, group, t.value) + InputsOf(c, group, s))
    ensures var before, after := Run(c, ops), Run(c, ops + more + [op]);
      && group in before && group in after
      && after[group].currentKey != before[group].currentKey
      && forall member :: member in before[group].senderKeys ==>
           after[group].currentKey != before[group].senderKeys[member]
  {
    var s := Summarize(ops, group).value;
    HistoryDetermines(c, ops, group);
    HistoryDetermines(c, ops + more + [op], group);
    RatchetsGrow(ops, more, group);
    AfterRatchet(ops + more, op, group);
    var t := Summarize(ops + more + [op], group).value;
    var inputs := InputsOf(c, group, t) + InputsOf(c, group, s);
    CurrentKeysIff(c, inputs, group, t.creator, t.ratchets, group, s.creator, s.ratchets);
    forall member | member in s.members
      ensures KeyAfter(c, group, t.creator, t.ratchets) != SenderKey(c, group, member, s.ratchets % U32)
    {
      RatchetedIsNoSenderKey(c, inputs, group, t.creator, t.ratchets, group, member, s.ratchets % U32);
    }
  }

  // ------------------------------------------------------------------
  // Who understands whom
  // ------------------------------------------------------------------

  /** Which key a replica holds for a sender: a member's own, or the current one. Before the
      first ratchet the current key is the creator's own. */
  datatype KeyName = Own(who: seq<byte>, epoch: u32) | Current(creator: seq<byte>, ratchets: nat)

  function NameFor(group: Id, s: Summary, sender: Id): KeyName {
    if sender in s.members then Own(group + sender, s.ratchets % U32)
    else if s.ratchets == 0 then Own(group + s.creator, 0)
    else Current(group + s.creator, s.ratchets)
  }

  /** The key of that name, for summaries of one group. */
  function HeldKey(c: Primitives, group: Id, s: Summary, sender: Id): Key32 {
    KeyFor(GroupOf(c, group, s), sender)
  }

  lemma NamesTellKeys(c: Primitives, group: Id, s: Summary, t: Summary, sender: Id)
    requires DigestSeparates(c, InputsOf(c, group, s) + InputsOf(c, group, t))
    ensures HeldKey(c, group, s, sender) == HeldKey(c, group, t, sender)
      <==> NameFor(group, s, sender) == NameFor(group, t, sender)
  {
    var inputs := InputsOf(c, group, s) + InputsOf(c, group, t);
    var e, f := s.ratchets % U32, t.ratchets % U32;
    KeyForIs(c, group, s, sender);
    KeyForIs(c, group, t, sender);
    if sender in s.members && sender in t.members {
      SenderKeysIff(c, inputs, group, sender, e, group, sender, f);
    } else if sender in s.members {
      OwnOrCurrent(c, inputs, group, sender, e, t.creator, t.ratchets);
    } else if sender in t.members {
      OwnOrCurrent(c, inputs, group, sender, f, s.creator, s.ratchets);
    } else {
      CurrentKeysIff(c, inputs, group, s.creator, s.ratchets, group, t.creator, t.ratchets);
    }
  }

  lemma OwnOrCurrent(c: Primitives, inputs: set<seq<byte>>, group: Id, member: Id, e: u32, creator: Id, n: nat)
    requires DigestSeparates(c, inputs)
    requires CurrentInputs(c, group, creator, n) <= inputs && SenderInput(group, member, e) in inputs
    ensures SenderKey(c, group, member, e) == KeyAfter(c, group, creator, n)
      <==> n == 0 && e == 0 && group + member == group + creator
  {
    if n == 0 {
      KeyIsDigest(c, group, creator, n);
      EqualDigests(c, inputs, SenderInput(group, member, e), LastInput(c, group, creator, n));
      SenderInputsIff(group, member, e, group, creator, n);
    } else {
      RatchetedIsNoSenderKey(c, inputs, group, creator, n, group, member, e);
    }
  }

  /** Of any two replicas of a group, whatever their histories: the first seals for a sender
      under the key it holds for him, and the second opens that exactly when it holds for him
      a key of the same name. Otherwise it fails to decrypt. */
  lemma {:induction false} UnderstandsByName(
      c: Primitives, ops1: seq<Op>, ops2: seq<Op>, group: Id, sender: Id, plain: seq<byte>)
    requires Summarize(ops1, group).Some? && Summarize(ops2, group).Some? && OpenInvertsSeal(c)
    requires var s, t := Summarize(ops1, group).value, Summarize(ops2, group).value;
      && DigestSeparates(c, InputsOf(c, group, s) + InputsOf(c, group, t))
      && OpensOnlyOwnKey(c, {HeldKey(c, group, s, sender), HeldKey(c, group, t, sender)}, plain)
    ensures var s, t := Summarize(ops1, group).value, Summarize(ops2, group).value;
      var key := HeldKey(c, group, s, sender);
      var sealed := c.seal(key, key[..12], plain);
      && Encrypt(c, Run(c, ops1), group, sender, plain) == Ok(sealed)
      && Decrypt(c, Run(c, ops2), group, sender, sealed) ==
           if NameFor(group, s, sender) == NameFor(group, t, sender) then Ok(plain) else DecryptFailed
  {
    HistoryDetermines(c, ops1, group);
    HistoryDetermines(c, ops2, group);
    NamesTellKeys(c, group, Summarize(ops1, group).value, Summarize(ops2, group).value, sender);
  }

  /** What is sealed under the current key after a ratchet or removal, a replica that stopped
      before it cannot open, whatever happened in between. */
  lemma {:induction false} LockedOut(
      c: Primitives, ops: seq<Op>, more: seq<Op>, op: Op, group: Id, sender: Id, plain: seq<byte>)
    requires Summarize(ops, group).Some? && NotRecreated(more, group) && Ratchets(op, group) && OpenInvertsSeal(c)
    requires Summarize(ops + more + [op], group).Some?
    requires var s, t := Summarize(ops + more + [op], group).value, Summarize(ops, group).value;
      && DigestSeparates(c, InputsOf(c, group, s) + InputsOf(c, group, t))
      && OpensOnlyOwnKey(c, {HeldKey(c, group, s, sender), HeldKey(c, group, t, sender)}, plain)
    ensures var sealed := Encrypt(c, Run(c, ops + more + [op]), group, sender, plain);
      sealed.Ok? && Decrypt(c, Run(c, ops), group, sender, sealed.value) == DecryptFailed
  {
    RatchetsGrow(ops, more, group);
    AfterRatchet(ops + more, op, group);
    UnderstandsByName(c, ops + more + [op], ops, group, sender, plain);
  }
}
