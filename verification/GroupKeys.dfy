/** Group key replicas: what a history of operations determines, and when two replicas
    understand each other. */
module GroupKeys {
  import opened Bytes
  import opened BigEndian

  type Id = seq<byte>
  /** SHA-256 and ChaCha20-Poly1305. */
  datatype Primitives = Primitives(
    sha: seq<byte> -> Key32,
    seal: (Key32, Nonce, seq<byte>) -> seq<byte>,
    open: (Key32, Nonce, seq<byte>) -> Option<seq<byte>>)

  datatype Group = Group(senderKeys: map<Id, Key32>, currentKey: Key32, epoch: u32)

  type Manager = map<Id, Group>

  datatype Outcome<+T> = Ok(value: T) | GroupNotFound | DecryptFailed

  function Ascii(s: string): seq<byte> {
    seq(|s|, i requires 0 <= i < |s| => s[i] as nat % 256)
  }

  function SenderKey(c: Primitives, group: Id, member: Id, epoch: u32): Key32 {
    c.sha(Ascii("zero-group-sender-key-v1") + group + member + Encode(epoch, 4))
  }

  function DeriveKey(c: Primitives, previous: Key32, epoch: u32): Key32 {
    c.sha(previous + Encode(epoch, 4) + Ascii("zero-group-ratchet"))
  }

  // ------------------------------------------------------------------
  // Operations
  // ------------------------------------------------------------------

  datatype Op =
    | Create(group: Id, creator: Id)
    | Register(group: Id, member: Id)
    | Ratchet(group: Id)
    | Remove(group: Id, member: Id)

  function Ratcheted(c: Primitives, g: Group): Group {
    var epoch := Next32(g.epoch);
    Group(map[], DeriveKey(c, g.currentKey, epoch), epoch)
  }

  /** The groups after an operation, and whether it succeeded. */
  function Apply(c: Primitives, m: Manager, op: Op): (Manager, Outcome<()>) {
    match op
    case Create(group, creator) => (m[group := Group(map[], SenderKey(c, group, creator, 0), 0)], Ok(()))
    case Register(group, member) =>
      if group in m then
        var g := m[group];
        (m[group := g.(senderKeys := g.senderKeys[member := SenderKey(c, group, member, g.epoch)])], Ok(()))
      else (m, GroupNotFound)
    case Ratchet(group) =>
      if group in m then (m[group := Ratcheted(c, m[group])], Ok(())) else (m, GroupNotFound)
    case Remove(group, member) =>
      if group in m then
        var g := m[group];
        (m[group := Ratcheted(c, g.(senderKeys := g.senderKeys - {member}))], Ok(()))
      else (m, GroupNotFound)
  }

  function Run(c: Primitives, ops: seq<Op>): Manager {
    if ops == [] then map[] else Apply(c, Run(c, ops[..|ops| - 1]), ops[|ops| - 1]).0
  }

  function KeyFor(g: Group, sender: Id): Key32 {
    if sender in g.senderKeys then g.senderKeys[sender] else g.currentKey
  }

  function Encrypt(c: Primitives, m: Manager, group: Id, sender: Id, plain: seq<byte>): Outcome<seq<byte>> {
    if group in m then
      var key := KeyFor(m[group], sender);
      Ok(c.seal(key, key[..12], plain))
    else GroupNotFound
  }

  function Decrypt(c: Primitives, m: Manager, group: Id, sender: Id, ciphertext: seq<byte>): Outcome<seq<byte>> {
    if group in m then
      var key := KeyFor(m[group], sender);
      var r := c.open(key, key[..12], ciphertext);
      if r.Some? then Ok(r.value) else DecryptFailed
    else GroupNotFound
  }

  // ------------------------------------------------------------------
  // What a history determines
  // ------------------------------------------------------------------

  /** Of a history, all that matters to a group: who created it last, how often it was
      ratcheted since (a removal ratchets), and who registered since the last ratchet. */
  datatype Summary = Summary(creator: Id, ratchets: nat, members: set<Id>)

  /** The summary after one more operation on the group. */
  function Extend(s: Option<Summary>, op: Op): Option<Summary> {
    match op
    case Create(_, creator) => Some(Summary(creator, 0, {}))
    case Register(_, member) =>
      if s.Some? then Some(s.value.(members := s.value.members + {member})) else None
    case _ =>
      if s.Some? then Some(s.value.(ratchets := s.value.ratchets + 1, members := {})) else None
  }

  function Summarize(ops: seq<Op>, group: Id): Option<Summary> {
    if ops == [] then None
    else
      var op, s := ops[|ops| - 1], Summarize(ops[..|ops| - 1], group);
      if op.group != group then s else Extend(s, op)
  }

  /** The current key after n ratchets of a group created by `creator`. */
  function KeyAfter(c: Primitives, group: Id, creator: Id, n: nat): Key32 {
    if n == 0 then SenderKey(c, group, creator, n)
    else DeriveKey(c, KeyAfter(c, group, creator, n - 1), n % U32)
  }

  function GroupOf(c: Primitives, group: Id, s: Summary): Group {
    var epoch: u32 := s.ratchets % U32;
    Group(map member | member in s.members :: SenderKey(c, group, member, epoch),
          KeyAfter(c, group, s.creator, s.ratchets), epoch)
  }

  lemma ApplyElsewhere(c: Primitives, m: Manager, op: Op, group: Id)
    requires op.group != group
    ensures var n := Apply(c, m, op).0;
      (group in n <==> group in m) && (group in m ==> n[group] == m[group])
  {}

  lemma NextEpoch(n: nat)
    ensures Next32(n % U32) == (n + 1) % U32
  {}

  lemma RatchetedIs(c: Primitives, group: Id, s: Summary, keys: map<Id, Key32>)
    ensures Ratcheted(c, GroupOf(c, group, s).(senderKeys := keys))
         == GroupOf(c, group, s.(ratchets := s.ratchets + 1, members := {}))
  {
    NextEpoch(s.ratchets);
  }

  lemma RegisteredIs(c: Primitives, group: Id, s: Summary, member: Id)
    ensures var g := GroupOf(c, group, s);
      g.(senderKeys := g.senderKeys[member := SenderKey(c, group, member, g.epoch)])
      == GroupOf(c, group, s.(members := s.members + {member}))
  {}

  /** The manager holds what the summary says for the group. */
  predicate Holds(c: Primitives, m: Manager, group: Id, s: Option<Summary>) {
    (group in m <==> s.Some?) && (s.Some? ==> m[group] == GroupOf(c, group, s.value))
  }

  lemma ApplyHolds(c: Primitives, m: Manager, op: Op, s: Option<Summary>)
    requires Holds(c, m, op.group, s)
    ensures Holds(c, Apply(c, m, op).0, op.group, Extend(s, op))
  {
    var group := op.group;
    if s.Some? {
      match op
      case Create(_, _) =>
      case Register(_, member) => RegisteredIs(c, group, s.value, member);
      case Ratchet(_) => RatchetedIs(c, group, s.value, m[group].senderKeys);
      case Remove(_, member) => RatchetedIs(c, group, s.value, m[group].senderKeys - {member});
    }
  }

  /** The state a replica holds for a group is a function of its history's summary alone. */
  lemma {:induction false} HistoryDetermines(c: Primitives, ops: seq<Op>, group: Id)
    ensures Holds(c, Run(c, ops), group, Summarize(ops, group))
    decreases |ops|
  {
    if ops != [] {
      var front, op := ops[..|ops| - 1], ops[|ops| - 1];
      HistoryDetermines(c, front, group);
      if op.group == group {
        ApplyHolds(c, Run(c, front), op, Summarize(front, group));
      } else {
        ApplyElsewhere(c, Run(c, front), op, group);
      }
    }
  }

  /** Created by the same member and ratcheted equally often since. */
  predicate SameEpoch(ops1: seq<Op>, ops2: seq<Op>, group: Id) {
    var s1, s2 := Summarize(ops1, group), Summarize(ops2, group);
    s1.Some? && s2.Some? && s1.value.creator == s2.value.creator && s1.value.ratchets == s2.value.ratchets
  }

  /** Replicas whose groups were created by the same member and ratcheted equally often since
      have equal epochs and current keys, whatever else their histories hold. */
  lemma {:induction false} ReplicasAgree(c: Primitives, ops1: seq<Op>, ops2: seq<Op>, group: Id)
    requires SameEpoch(ops1, ops2, group)
    ensures var m1, m2 := Run(c, ops1), Run(c, ops2);
      && group in m1 && group in m2
      && m1[group].epoch == m2[group].epoch && m1[group].currentKey == m2[group].currentKey
  {
    HistoryDetermines(c, ops1, group);
    HistoryDetermines(c, ops2, group);
  }

  // ------------------------------------------------------------------
  // When one replica understands another
  // ------------------------------------------------------------------

  ghost predicate OpenInvertsSeal(c: Primitives) {
    forall k, n, p :: c.open(k, n, c.seal(k, n, p)) == Some(p)
  }

  /** Sealed under one of these keys, this plaintext opens under another only if they are
      equal. */
  ghost predicate OpensOnlyOwnKey(c: Primitives, keys: set<Key32>, plain: seq<byte>) {
    forall k, l :: k in keys && l in keys && c.open(l, l[..12], c.seal(k, k[..12], plain)).Some? ==> l == k
  }

  /** The two keys a replica may hold for a sender: its own and the group's. */
  function KeysFor(c: Primitives, group: Id, s: Summary, sender: Id): set<Key32> {
    {SenderKey(c, group, sender, s.ratchets % U32), KeyAfter(c, group, s.creator, s.ratchets)}
  }

  /** Two replicas that agree on creator and ratchets: the second opens what the first seals
      for a sender if and only if both or neither registered that sender since the last
      ratchet, or the sender's own key happens to be the current key. */
  lemma {:induction false} UnderstandsIff(
      c: Primitives, ops1: seq<Op>, ops2: seq<Op>, group: Id, sender: Id, plain: seq<byte>)
    requires OpenInvertsSeal(c) && SameEpoch(ops1, ops2, group)
    requires OpensOnlyOwnKey(c, KeysFor(c, group, Summarize(ops1, group).value, sender), plain)
    ensures var s1, s2 := Summarize(ops1, group).value, Summarize(ops2, group).value;
      var sealed := Encrypt(c, Run(c, ops1), group, sender, plain);
      && sealed.Ok?
      && (Decrypt(c, Run(c, ops2), group, sender, sealed.value) == Ok(plain) <==>
            (sender in s1.members <==> sender in s2.members)
            || SenderKey(c, group, sender, s1.ratchets % U32) == KeyAfter(c, group, s1.creator, s1.ratchets))
  {
    HistoryDetermines(c, ops1, group);
    HistoryDetermines(c, ops2, group);
    var s1, s2 := Summarize(ops1, group).value, Summarize(ops2, group).value;
    KeyForIs(c, group, s1, sender);
    KeyForIs(c, group, s2, sender);
  }

  lemma KeyForIs(c: Primitives, group: Id, s: Summary, sender: Id)
    ensures KeyFor(GroupOf(c, group, s), sender) ==
      if sender in s.members then SenderKey(c, group, sender, s.ratchets % U32)
      else KeyAfter(c, group, s.creator, s.ratchets)
  {}

  /** That coincidence is real for one sender: before the first ratchet the current key is
      the creator's own, so the creator is understood by every replica. */
  lemma {:induction false} CreatorUnderstoodAtFirst(
      c: Primitives, ops1: seq<Op>, ops2: seq<Op>, group: Id, plain: seq<byte>)
    requires OpenInvertsSeal(c)
    requires SameEpoch(ops1, ops2, group) && Summarize(ops1, group).value.ratchets == 0
    ensures var creator := Summarize(ops1, group).value.creator;
      var sealed := Encrypt(c, Run(c, ops1), group, creator, plain);
      sealed.Ok? && Decrypt(c, Run(c, ops2), group, creator, sealed.value) == Ok(plain)
  {
    HistoryDetermines(c, ops1, group);
    HistoryDetermines(c, ops2, group);
    KeyForIs(c, group, Summarize(ops1, group).value, Summarize(ops1, group).value.creator);
    KeyForIs(c, group, Summarize(ops2, group).value, Summarize(ops1, group).value.creator);
  }

  /** What an operation answers after any history: only one on a group that was never created
      fails, and it changes nothing. So do sealing and opening for such a group. */
  lemma {:induction false} OutcomeIff(c: Primitives, ops: seq<Op>, op: Op, sender: Id, text: seq<byte>)
    ensures var m, (n, r) := Run(c, ops), Apply(c, Run(c, ops), op);
      if op.Create? || Summarize(ops, op.group).Some? then r == Ok(()) else r == GroupNotFound && n == m
    ensures var m := Run(c, ops);
      && (Encrypt(c, m, op.group, sender, text) == GroupNotFound <==> Summarize(ops, op.group).None?)
      && (Decrypt(c, m, op.group, sender, text) == GroupNotFound <==> Summarize(ops, op.group).None?)
  {
    HistoryDetermines(c, ops, op.group);
  }
}
