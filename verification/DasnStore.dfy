/** The content-addressed store, as values: storing, retrieving, pinning, evicting. */
module DasnStore {
  import opened Bytes
  import opened Fields

  const MAX_OBJECT_SIZE: nat := 24 * 1024 * 1024
  const EVICTION_BATCH: nat := 10

  type Digest = seq<byte> -> Key32

  datatype ContentId = ContentId(hash: Key32, size: nat, mimeType: string, createdAt: u64)

  datatype StoredObject = StoredObject(
    cid: ContentId, data: seq<byte>, pinned: bool, replicatedTo: seq<string>, accessCount: u64)

  type Objects = map<string, StoredObject>

  datatype Store = Store(
    objects: Objects, index: map<string, ContentId>,
    maxCapacity: u64, usage: u64, replicas: map<string, seq<string>>)

  function HexDigit(n: nat): (c: char)
    requires n < 16
  {
    if n < 10 then (48 + n) as char else (87 + n) as char
  }

  function HexByte(b: byte): (h: string)
    ensures |h| == 2
  {
    [HexDigit(b / 16), HexDigit(b % 16)]
  }

  /** `hex::encode`. */
  function Hex(s: seq<byte>): (h: string)
    ensures |h| == 2 * |s|
  {
    if s == [] then "" else Hex(s[..|s| - 1]) + HexByte(s[|s| - 1])
  }

  lemma HexByteInjective(b: byte, d: byte)
    requires HexByte(b) == HexByte(d)
    ensures b == d
  {}

  /** Distinct byte strings have distinct hex strings, so a key determines its hash. */
  lemma {:induction false} HexInjective(s: seq<byte>, t: seq<byte>)
    requires Hex(s) == Hex(t)
    ensures s == t
    decreases |s|
  {
    if s != [] {
      var p, q, b, d := s[..|s| - 1], t[..|t| - 1], s[|s| - 1], t[|t| - 1];
      SameEnds(Hex(p), Hex(q), HexByte(b), HexByte(d));
      HexByteInjective(b, d);
      HexInjective(p, q);
      assert s == p + [b] && t == q + [d];
    }
  }

  function New(maxCapacityMb: u64): Store {
    Store(map[], map[], maxCapacityMb * 1024 * 1024 % U64, 0, map[])
  }

  // ------------------------------------------------------------------
  // Eviction
  // ------------------------------------------------------------------

  predicate Distinct(ks: seq<string>) {
    forall i, j :: 0 <= i < j < |ks| ==> ks[i] != ks[j]
  }

  function Elements(ks: seq<string>): set<string> {
    set k | k in ks
  }

  /** `order` is an order in which the map could be iterated. */
  predicate Iterates(order: seq<string>, objects: Objects) {
    Distinct(order) && Elements(order) == objects.Keys
  }

  function Unpinned(objects: Objects): set<string> {
    set k | k in objects && !objects[k].pinned
  }

  /** The unpinned keys, in iteration order. */
  function Candidates(objects: Objects, order: seq<string>): seq<string> {
    if order == [] then []
    else
      var k := order[|order| - 1];
      var front := Candidates(objects, order[..|order| - 1]);
      if k in objects && !objects[k].pinned then front + [k] else front
  }

  function Count(objects: Objects, k: string): nat {
    if k in objects then objects[k].accessCount else 0
  }

  /** k behind the last element that does not count more. */
  function InsertByCount(objects: Objects, ks: seq<string>, k: string): seq<string> {
    if ks == [] then [k]
    else
      var n := |ks| - 1;
      if Count(objects, ks[n]) <= Count(objects, k) then ks + [k]
      else InsertByCount(objects, ks[..n], k) + [ks[n]]
  }

  /** `sort_by_key` by access count, which is stable. */
  function SortByCount(objects: Objects, ks: seq<string>): seq<string> {
    if ks == [] then [] else InsertByCount(objects, SortByCount(objects, ks[..|ks| - 1]), ks[|ks| - 1])
  }

  function Victims(objects: Objects, order: seq<string>): seq<string> {
    var sorted := SortByCount(objects, Candidates(objects, order));
    if |sorted| <= EVICTION_BATCH then sorted else sorted[..EVICTION_BATCH]
  }

  function RemoveOne(s: Store, k: string): Store {
    if k in s.objects then
      s.(objects := s.objects - {k}, usage := Wrap64(s.usage - |s.objects[k].data|), index := s.index - {k})
    else s
  }

  function RemoveAll(s: Store, ks: seq<string>): Store {
    if ks == [] then s else RemoveOne(RemoveAll(s, ks[..|ks| - 1]), ks[|ks| - 1])
  }

  /** `evict_lru`, for one iteration order of the map. */
  function Evict(s: Store, order: seq<string>): Store {
    RemoveAll(s, Victims(s.objects, order))
  }

  // ------------------------------------------------------------------
  // Operations
  // ------------------------------------------------------------------

  /** One more access, on a u64 counter. */
  function Accessed(o: StoredObject): StoredObject {
    o.(accessCount := (o.accessCount + 1) % U64)
  }

  function Touch(s: Store, k: string): Store
    requires k in s.objects
  {
    s.(objects := s.objects[k := Accessed(s.objects[k])])
  }

  /** Whether n new bytes would exceed the capacity; the sum is a u64. */
  predicate Exceeds(s: Store, n: nat) {
    Wrap64(s.usage + n) > s.maxCapacity
  }

  /** The eviction a store of n new bytes starts with, if it would exceed the capacity. */
  function MakeRoom(s: Store, n: nat, order: seq<string>): Store {
    if Exceeds(s, n) then Evict(s, order) else s
  }

  function Insert(s: Store, k: string, o: StoredObject): Store {
    s.(objects := s.objects[k := o], index := s.index[k := o.cid], usage := Wrap64(s.usage + |o.data|))
  }

  function Put(sha: Digest, s: Store, data: seq<byte>, mimeType: string, pinned: bool, now: u64, order: seq<string>)
    : (Store, Option<ContentId>)
  {
    var k := Hex(sha(data));
    if |data| > MAX_OBJECT_SIZE then (s, None)
    else if k in s.objects then (Touch(s, k), Some(s.objects[k].cid))
    else
      var cid := ContentId(sha(data), |data|, mimeType, now);
      (Insert(MakeRoom(s, |data|, order), k, StoredObject(cid, data, pinned, [], 0)), Some(cid))
  }

  function Retrieve(s: Store, k: string): (Store, Option<seq<byte>>) {
    if k in s.objects then (Touch(s, k), Some(s.objects[k].data)) else (s, None)
  }

  /** `pin` and `unpin`; the flag tells whether the object was found. */
  function SetPinned(s: Store, k: string, pinned: bool): (Store, bool) {
    if k in s.objects then (s.(objects := s.objects[k := s.objects[k].(pinned := pinned)]), true) else (s, false)
  }

  function RegisterReplica(s: Store, k: string, peer: string): Store {
    s.(replicas := s.replicas[k := (if k in s.replicas then s.replicas[k] else []) + [peer]])
  }

  datatype Op =
    | DoPut(data: seq<byte>, mimeType: string, pinned: bool, now: u64, order: seq<string>)
    | DoRetrieve(key: string)
    | DoPin(key: string)
    | DoUnpin(key: string)
    | DoRegister(key: string, peer: string)

  function Apply(sha: Digest, s: Store, op: Op): Store {
    match op
    case DoPut(data, mimeType, pinned, now, order) => Put(sha, s, data, mimeType, pinned, now, order).0
    case DoRetrieve(k) => Retrieve(s, k).0
    case DoPin(k) => SetPinned(s, k, true).0
    case DoUnpin(k) => SetPinned(s, k, false).0
    case DoRegister(k, peer) => RegisterReplica(s, k, peer)
  }

  function Run(sha: Digest, s: Store, ops: seq<Op>): Store {
    if ops == [] then s else Apply(sha, Run(sha, s, ops[..|ops| - 1]), ops[|ops| - 1])
  }

  // ------------------------------------------------------------------
  // Bookkeeping
  // ------------------------------------------------------------------

  function Contents(objects: Objects): map<string, seq<byte>> {
    map k | k in objects :: objects[k].data
  }

  predicate ObjectOk(sha: Digest, k: string, o: StoredObject) {
    k == Hex(sha(o.data)) && o.cid.hash == sha(o.data) && o.cid.size == |o.data| <= MAX_OBJECT_SIZE
  }

  /** The two maps agree, and every key is the hex hash of its data. */
  predicate Agree(sha: Digest, objects: Objects, index: map<string, ContentId>) {
    && objects.Keys == index.Keys
    && (forall k :: k in objects ==> ObjectOk(sha, k, objects[k]) && index[k] == objects[k].cid)
  }

  /** How many bytes are stored. */
  ghost function Stored(objects: Objects): nat {
    TotalLength(Contents(objects))
  }

  /** Besides, usage is the number of bytes stored, up to wrap-around of its u64. */
  ghost predicate Valid(sha: Digest, s: Store) {
    Agree(sha, s.objects, s.index) && Counts(s.usage, Stored(s.objects))
  }

  lemma RemoveAgrees(sha: Digest, objects: Objects, index: map<string, ContentId>, k: string)
    requires Agree(sha, objects, index)
    ensures Agree(sha, objects - {k}, index - {k})
  {}

  lemma RemoveTotals(objects: Objects, k: string)
    requires k in objects
    ensures Stored(objects) == Stored(objects - {k}) + |objects[k].data|
  {
    TotalRemove(Contents(objects), k);
    assert Contents(objects - {k}) == Contents(objects) - {k};
  }

  function Laps(q: nat): nat { q * 0x1_0000_0000_0000_0000 }

  /** Usage counts these bytes, up to wrap-around. */
  ghost predicate Counts(usage: u64, total: nat) {
    exists q :: total == usage + Laps(q)
  }

  lemma Subtracts(usage: u64, total: nat, n: nat)
    requires Counts(usage, total) && n <= total
    ensures Counts(Wrap64(usage - n), total - n)
    ensures total < U64 ==> n <= usage == total
  {
    var q :| total == usage + Laps(q);
    var u := Wrap64(usage - n);
    assert total - n == u + Laps((total - n) / 0x1_0000_0000_0000_0000);
  }

  lemma Adds(usage: u64, total: nat, n: nat)
    requires Counts(usage, total)
    ensures Counts(Wrap64(usage + n), total + n)
    ensures total + n < U64 ==> Wrap64(usage + n) == total + n
  {
    var q :| total == usage + Laps(q);
    assert total + n == Wrap64(usage + n) + Laps((total + n) / 0x1_0000_0000_0000_0000);
  }

  lemma RemoveOneCounts(s: Store, k: string)
    requires Counts(s.usage, Stored(s.objects)) && k in s.objects
    ensures var t := RemoveOne(s, k);
      Counts(t.usage, Stored(t.objects)) && Stored(t.objects) + |s.objects[k].data| == Stored(s.objects)
    ensures Stored(s.objects) < U64 ==> |s.objects[k].data| <= s.usage == Stored(s.objects)
  {
    RemoveTotals(s.objects, k);
    Subtracts(s.usage, Stored(s.objects), |s.objects[k].data|);
  }

  lemma RemoveOneAgrees(sha: Digest, s: Store, k: string)
    requires Agree(sha, s.objects, s.index)
    ensures Agree(sha, RemoveOne(s, k).objects, RemoveOne(s, k).index)
  {
    RemoveAgrees(sha, s.objects, s.index, k);
  }

  /** Removing one object keeps the books, and its subtraction from usage does not underflow
      while fewer than 2^64 bytes are stored. */
  lemma RemoveOneValid(sha: Digest, s: Store, k: string)
    requires Valid(sha, s)
    ensures Valid(sha, RemoveOne(s, k)) && Stored(RemoveOne(s, k).objects) <= Stored(s.objects)
    ensures k in s.objects && Stored(s.objects) < U64 ==> |s.objects[k].data| <= s.usage == Stored(s.objects)
  {
    RemoveOneAgrees(sha, s, k);
    if k in s.objects { RemoveOneCounts(s, k); }
  }

  lemma {:induction false} RemoveAllValid(sha: Digest, s: Store, ks: seq<string>)
    requires Valid(sha, s)
    ensures Valid(sha, RemoveAll(s, ks)) && Stored(RemoveAll(s, ks).objects) <= Stored(s.objects)
    decreases |ks|
  {
    if ks != [] {
      RemoveAllValid(sha, s, ks[..|ks| - 1]);
      RemoveOneValid(sha, RemoveAll(s, ks[..|ks| - 1]), ks[|ks| - 1]);
    }
  }

  lemma ElementsSnoc(ks: seq<string>)
    requires ks != []
    ensures Elements(ks) == Elements(ks[..|ks| - 1]) + {ks[|ks| - 1]}
  {}

  lemma {:induction false} RemoveAllShape(s: Store, ks: seq<string>)
    ensures var t := RemoveAll(s, ks);
      t.objects == s.objects - Elements(ks) && t.maxCapacity == s.maxCapacity && t.replicas == s.replicas
    decreases |ks|
  {
    if ks != [] {
      RemoveAllShape(s, ks[..|ks| - 1]);
      ElementsSnoc(ks);
    }
  }

  lemma ReplaceAgrees(sha: Digest, s: Store, k: string, o: StoredObject)
    requires Agree(sha, s.objects, s.index) && k in s.objects
    requires o.cid == s.objects[k].cid && o.data == s.objects[k].data
    ensures Agree(sha, s.objects[k := o], s.index)
  {}

  lemma ReplaceContents(objects: Objects, k: string, o: StoredObject)
    requires k in objects && o.data == objects[k].data
    ensures Contents(objects[k := o]) == Contents(objects)
  {}

  /** Replacing an object by one with the same content. */
  lemma ReplaceValid(sha: Digest, s: Store, k: string, o: StoredObject)
    requires Valid(sha, s) && k in s.objects
    requires o.cid == s.objects[k].cid && o.data == s.objects[k].data
    ensures Valid(sha, s.(objects := s.objects[k := o]))
  {
    ReplaceAgrees(sha, s, k, o);
    ReplaceContents(s.objects, k, o);
  }

  lemma InsertAgrees(sha: Digest, s: Store, k: string, o: StoredObject)
    requires Agree(sha, s.objects, s.index) && ObjectOk(sha, k, o)
    ensures Agree(sha, s.objects[k := o], s.index[k := o.cid])
  {}

  lemma InsertTotals(s: Store, k: string, o: StoredObject)
    requires k !in s.objects
    ensures Stored(s.objects[k := o]) == Stored(s.objects) + |o.data|
  {
    TotalInsert(Contents(s.objects), k, o.data);
    assert Contents(s.objects[k := o]) == Contents(s.objects)[k := o.data];
  }

  lemma TouchValid(sha: Digest, s: Store, k: string)
    requires Valid(sha, s) && k in s.objects
    ensures Valid(sha, Touch(s, k))
  {
    ReplaceValid(sha, s, k, Accessed(s.objects[k]));
  }

  lemma MakeRoomValid(sha: Digest, s: Store, n: nat, order: seq<string>)
    requires Valid(sha, s)
    ensures var t := MakeRoom(s, n, order);
      Valid(sha, t) && t.objects.Keys <= s.objects.Keys
  {
    RemoveAllValid(sha, s, Victims(s.objects, order));
    RemoveAllShape(s, Victims(s.objects, order));
  }

  lemma InsertCounts(s: Store, k: string, o: StoredObject)
    requires Counts(s.usage, Stored(s.objects)) && k !in s.objects
    ensures Counts(Insert(s, k, o).usage, Stored(Insert(s, k, o).objects))
  {
    InsertTotals(s, k, o);
    Adds(s.usage, Stored(s.objects), |o.data|);
  }

  lemma InsertValid(sha: Digest, s: Store, k: string, o: StoredObject)
    requires Valid(sha, s) && k !in s.objects && ObjectOk(sha, k, o)
    ensures Valid(sha, Insert(s, k, o))
  {
    InsertAgrees(sha, s, k, o);
    InsertCounts(s, k, o);
  }

  lemma PutValid(sha: Digest, s: Store, data: seq<byte>, mimeType: string, pinned: bool, now: u64,
                 order: seq<string>)
    requires Valid(sha, s)
    ensures Valid(sha, Put(sha, s, data, mimeType, pinned, now, order).0)
  {
    var k := Hex(sha(data));
    if |data| <= MAX_OBJECT_SIZE {
      if k in s.objects {
        TouchValid(sha, s, k);
      } else {
        MakeRoomValid(sha, s, |data|, order);
        InsertValid(sha, MakeRoom(s, |data|, order), k,
                    StoredObject(ContentId(sha(data), |data|, mimeType, now), data, pinned, [], 0));
      }
    }
  }

  lemma ApplyValid(sha: Digest, s: Store, op: Op)
    requires Valid(sha, s)
    ensures Valid(sha, Apply(sha, s, op))
  {
    match op
    case DoPut(data, mimeType, pinned, now, order) => PutValid(sha, s, data, mimeType, pinned, now, order);
    case DoRetrieve(k) => if k in s.objects { TouchValid(sha, s, k); }
    case DoPin(k) => if k in s.objects { ReplaceValid(sha, s, k, s.objects[k].(pinned := true)); }
    case DoUnpin(k) => if k in s.objects { ReplaceValid(sha, s, k, s.objects[k].(pinned := false)); }
    case DoRegister(k, peer) =>
  }

  /** Over every run the books are right. */
  lemma {:induction false} RunValid(sha: Digest, maxCapacityMb: u64, ops: seq<Op>)
    ensures Valid(sha, Run(sha, New(maxCapacityMb), ops))
    decreases |ops|
  {
    if ops != [] {
      RunValid(sha, maxCapacityMb, ops[..|ops| - 1]);
      ApplyValid(sha, Run(sha, New(maxCapacityMb), ops[..|ops| - 1]), ops[|ops| - 1]);
    } else {
      assert Contents(map[]) == map[] && 0 == Laps(0);
    }
  }

  /** While fewer than 2^64 bytes are stored, no subtraction of an eviction underflows. */
  lemma EvictionNeverUnderflows(sha: Digest, s: Store, order: seq<string>, i: nat)
    requires Valid(sha, s) && Stored(s.objects) < U64 && i < |Victims(s.objects, order)|
    ensures var victims := Victims(s.objects, order);
      var t := RemoveAll(s, victims[..i]);
      victims[i] in t.objects ==> |t.objects[victims[i]].data| <= t.usage
  {
    var victims := Victims(s.objects, order);
    RemoveAllValid(sha, s, victims[..i]);
    RemoveOneValid(sha, RemoveAll(s, victims[..i]), victims[i]);
  }

  /** After any run, what is retrieved under a key is what hashes to it. */
  lemma RetrieveIsContentAddressed(sha: Digest, maxCapacityMb: u64, ops: seq<Op>, hash: Key32)
    ensures var r := Retrieve(Run(sha, New(maxCapacityMb), ops), Hex(hash)).1;
      r.Some? ==> sha(r.value) == hash
  {
    RunValid(sha, maxCapacityMb, ops);
    var s := Run(sha, New(maxCapacityMb), ops);
    if Hex(hash) in s.objects {
      HexInjective(hash, sha(s.objects[Hex(hash)].data));
    }
  }

  /** What is stored can be retrieved under the hash returned: the very bytes if they were
      new, and bytes with the same hash, counted once more, if not. */
  lemma StoreThenRetrieve(sha: Digest, s: Store, data: seq<byte>, mimeType: string, pinned: bool, now: u64,
                          order: seq<string>)
    requires Valid(sha, s) && |data| <= MAX_OBJECT_SIZE
    ensures var (t, cid) := Put(sha, s, data, mimeType, pinned, now, order);
      && cid.Some? && cid.value.hash == sha(data)
      && var got := Retrieve(t, Hex(cid.value.hash)).1;
         && got.Some? && sha(got.value) == sha(data)
         && (if Hex(sha(data)) in s.objects then t.objects.Keys == s.objects.Keys else got.value == data)
  {
    var k := Hex(sha(data));
    if k in s.objects {
      assert ObjectOk(sha, k, s.objects[k]);
      HexInjective(sha(s.objects[k].data), sha(data));
    }
  }

  // ------------------------------------------------------------------
  // Eviction choice
  // ------------------------------------------------------------------

  lemma {:induction false} CandidatesAre(objects: Objects, order: seq<string>)
    requires Distinct(order)
    ensures var ks := Candidates(objects, order);
      && Distinct(ks)
      && forall k :: k in ks <==> k in order && k in objects && !objects[k].pinned
    decreases |order|
  {
    if order != [] {
      var front := order[..|order| - 1];
      CandidatesAre(objects, front);
      assert order == front + [order[|order| - 1]];
    }
  }

  predicate SortedByCount(objects: Objects, ks: seq<string>) {
    forall i, j :: 0 <= i < j < |ks| ==> Count(objects, ks[i]) <= Count(objects, ks[j])
  }

  lemma {:induction false} InsertPermutes(objects: Objects, ks: seq<string>, k: string)
    ensures multiset(InsertByCount(objects, ks, k)) == multiset(ks) + multiset{k}
    decreases |ks|
  {
    if ks != [] {
      InsertPermutes(objects, ks[..|ks| - 1], k);
      assert ks == ks[..|ks| - 1] + [ks[|ks| - 1]];
    }
  }

  predicate CountsAtMost(objects: Objects, ks: seq<string>, n: nat) {
    forall i :: 0 <= i < |ks| ==> Count(objects, ks[i]) <= n
  }

  lemma {:induction false} InsertSorts(objects: Objects, ks: seq<string>, k: string, n: nat)
    requires SortedByCount(objects, ks) && CountsAtMost(objects, ks, n) && Count(objects, k) <= n
    ensures SortedByCount(objects, InsertByCount(objects, ks, k))
    ensures CountsAtMost(objects, InsertByCount(objects, ks, k), n)
    decreases |ks|
  {
    if ks != [] && Count(objects, ks[|ks| - 1]) > Count(objects, k) {
      InsertSorts(objects, ks[..|ks| - 1], k, Count(objects, ks[|ks| - 1]));
    }
  }

  lemma {:induction false} SortSorts(objects: Objects, ks: seq<string>)
    ensures SortedByCount(objects, SortByCount(objects, ks))
    ensures multiset(SortByCount(objects, ks)) == multiset(ks)
    decreases |ks|
  {
    if ks != [] {
      var front, k := ks[..|ks| - 1], ks[|ks| - 1];
      assert ks == front + [k];
      SortSorts(objects, front);
      InsertPermutes(objects, SortByCount(objects, front), k);
      InsertSorts(objects, SortByCount(objects, front), k, U64);
    }
  }

  lemma {:induction false} DistinctCounts(ks: seq<string>, x: string)
    requires Distinct(ks)
    ensures multiset(ks)[x] <= 1
    decreases |ks|
  {
    if ks != [] {
      assert ks == ks[..|ks| - 1] + [ks[|ks| - 1]];
      DistinctCounts(ks[..|ks| - 1], x);
      if x == ks[|ks| - 1] { assert x !in ks[..|ks| - 1]; }
    }
  }

  lemma RepeatCounts(ks: seq<string>, i: nat, j: nat)
    requires i < j < |ks| && ks[i] == ks[j]
    ensures multiset(ks)[ks[i]] >= 2
  {
    assert ks == ks[..j] + ks[j..];
    assert ks[i] in ks[..j] && ks[j] in ks[j..];
  }

  lemma PermutedDistinct(ks: seq<string>, r: seq<string>)
    requires Distinct(ks) && multiset(r) == multiset(ks)
    ensures Distinct(r) && Elements(r) == Elements(ks)
  {
    forall i, j | 0 <= i < j < |r| ensures r[i] != r[j] {
      if r[i] == r[j] {
        RepeatCounts(r, i, j);
        DistinctCounts(ks, r[i]);
      }
    }
    forall x ensures x in Elements(r) <==> x in Elements(ks) {
      assert x in r <==> x in multiset(r);
      assert x in ks <==> x in multiset(ks);
    }
  }

  lemma {:induction false} DistinctCard(ks: seq<string>)
    requires Distinct(ks)
    ensures |Elements(ks)| == |ks|
    decreases |ks|
  {
    if ks != [] {
      DistinctCard(ks[..|ks| - 1]);
      ElementsSnoc(ks);
      assert ks[|ks| - 1] !in Elements(ks[..|ks| - 1]);
    }
  }

  lemma SortedCandidates(objects: Objects, order: seq<string>) returns (sorted: seq<string>)
    requires Iterates(order, objects)
    ensures sorted == SortByCount(objects, Candidates(objects, order))
    ensures Distinct(sorted) && Elements(sorted) == Unpinned(objects) && SortedByCount(objects, sorted)
    ensures |sorted| == |Unpinned(objects)|
  {
    var ks := Candidates(objects, order);
    sorted := SortByCount(objects, ks);
    CandidatesAre(objects, order);
    SortSorts(objects, ks);
    PermutedDistinct(ks, sorted);
    DistinctCard(sorted);
    assert Elements(ks) == Unpinned(objects) by {
      forall k ensures k in Elements(ks) <==> k in Unpinned(objects) {
        assert k in objects ==> k in Elements(order);
      }
    }
  }

  lemma PrefixChoice(objects: Objects, sorted: seq<string>, n: nat)
    requires n <= |sorted| && Distinct(sorted) && SortedByCount(objects, sorted)
    ensures |Elements(sorted[..n])| == n && Elements(sorted[..n]) <= Elements(sorted)
    ensures forall x, y :: x in Elements(sorted[..n]) && y in Elements(sorted) - Elements(sorted[..n])
              ==> Count(objects, x) <= Count(objects, y)
  {
    DistinctCard(sorted[..n]);
    assert forall x :: x in sorted[..n] ==> x in sorted;
    assert forall i :: 0 <= i < n ==> sorted[i] == sorted[..n][i] && sorted[i] in sorted[..n];
    forall x, y | x in Elements(sorted[..n]) && y in Elements(sorted) - Elements(sorted[..n])
      ensures Count(objects, x) <= Count(objects, y)
    {
      var i :| 0 <= i < n && sorted[i] == x;
      var j :| 0 <= j < |sorted| && sorted[j] == y;
      assert j >= n;
    }
  }

  lemma EvictionGone(s: Store, order: seq<string>) returns (sorted: seq<string>, n: nat)
    requires Iterates(order, s.objects)
    ensures n == (if |Unpinned(s.objects)| < EVICTION_BATCH then |Unpinned(s.objects)| else EVICTION_BATCH)
    ensures n <= |sorted| && Distinct(sorted) && Elements(sorted) == Unpinned(s.objects)
    ensures SortedByCount(s.objects, sorted)
    ensures Evict(s, order).objects == s.objects - Elements(sorted[..n])
  {
    sorted := SortedCandidates(s.objects, order);
    n := if |sorted| <= EVICTION_BATCH then |sorted| else EVICTION_BATCH;
    assert sorted[..|sorted|] == sorted;
    RemoveAllShape(s, sorted[..n]);
  }

  /** The keys an eviction removes. */
  function Gone(s: Store, order: seq<string>): set<string> {
    s.objects.Keys - Evict(s, order).objects.Keys
  }

  /** For every iteration order of the map, an eviction removes exactly ten objects, or all
      the unpinned ones if there are fewer; never a pinned one; and none with a higher access
      count than an unpinned survivor. Survivors are unchanged. */
  lemma EvictionChoice(s: Store, order: seq<string>)
    requires Iterates(order, s.objects)
    ensures Evict(s, order).objects == s.objects - Gone(s, order)
    ensures Gone(s, order) <= Unpinned(s.objects)
    ensures |Gone(s, order)| == if |Unpinned(s.objects)| < 10 then |Unpinned(s.objects)| else 10
    ensures forall x, y :: x in Gone(s, order) && y in Unpinned(s.objects) - Gone(s, order)
              ==> Count(s.objects, x) <= Count(s.objects, y)
  {
    var sorted, n := EvictionGone(s, order);
    PrefixChoice(s.objects, sorted, n);
    GoneIs(s.objects, Elements(sorted[..n]));
  }

  lemma GoneIs(objects: Objects, victims: set<string>)
    requires victims <= objects.Keys
    ensures objects.Keys - (objects - victims).Keys == victims
  {}

  // ------------------------------------------------------------------
  // Pinning
  // ------------------------------------------------------------------

  lemma {:induction false} CandidatesUnpinned(objects: Objects, order: seq<string>, k: string)
    requires k in Candidates(objects, order)
    ensures k in Unpinned(objects)
    decreases |order|
  {
    var front := Candidates(objects, order[..|order| - 1]);
    if k in front { CandidatesUnpinned(objects, order[..|order| - 1], k); }
  }

  lemma VictimsUnpinned(objects: Objects, order: seq<string>, k: string)
    requires k in Victims(objects, order)
    ensures k in Unpinned(objects)
  {
    var ks := Candidates(objects, order);
    SortSorts(objects, ks);
    assert k in SortByCount(objects, ks);
    assert k in multiset(ks);
    CandidatesUnpinned(objects, order, k);
  }

  /** k holds these bytes and is pinned. */
  predicate PinnedAt(s: Store, k: string, data: seq<byte>) {
    k in s.objects && s.objects[k].pinned && s.objects[k].data == data
  }

  lemma MakeRoomKeepsPinned(s: Store, n: nat, order: seq<string>, k: string, data: seq<byte>)
    requires PinnedAt(s, k, data)
    ensures PinnedAt(MakeRoom(s, n, order), k, data)
  {
    RemoveAllShape(s, Victims(s.objects, order));
    if k in Victims(s.objects, order) {
      VictimsUnpinned(s.objects, order, k);
    }
  }

  lemma ApplyKeepsPinned(sha: Digest, s: Store, op: Op, k: string, data: seq<byte>)
    requires PinnedAt(s, k, data) && op != DoUnpin(k)
    ensures PinnedAt(Apply(sha, s, op), k, data)
  {
    if op.DoPut? {
      MakeRoomKeepsPinned(s, |op.data|, op.order, k, data);
    }
  }

  /** An object pinned and not later unpinned stays retrievable, with the same bytes, through
      any number of stores and evictions. */
  lemma {:induction false} PinnedStaysRetrievable(sha: Digest, s: Store, ops: seq<Op>, k: string, data: seq<byte>)
    requires PinnedAt(s, k, data) && forall i :: 0 <= i < |ops| ==> ops[i] != DoUnpin(k)
    ensures PinnedAt(Run(sha, s, ops), k, data) && Retrieve(Run(sha, s, ops), k).1 == Some(data)
    decreases |ops|
  {
    if ops != [] {
      PinnedStaysRetrievable(sha, s, ops[..|ops| - 1], k, data);
      ApplyKeepsPinned(sha, Run(sha, s, ops[..|ops| - 1]), ops[|ops| - 1], k, data);
    }
  }

  // ------------------------------------------------------------------
  // What a run tells about each object
  // ------------------------------------------------------------------

  /** What the operations since a key was last inserted make of it: the data, type and time it
      was inserted with, whether it is pinned, and how often it was retrieved or stored again. */
  datatype Account = Account(data: seq<byte>, mimeType: string, createdAt: u64, pinned: bool, uses: nat)

  /** The account of k after one more operation, given whether k was held before it. */
  function Retold(sha: Digest, a: Account, held: bool, op: Op, k: string): Account {
    match op
    case DoPut(data, mimeType, pinned, now, _) =>
      if |data| > MAX_OBJECT_SIZE || Hex(sha(data)) != k then a
      else if held then a.(uses := a.uses + 1)
      else Account(data, mimeType, now, pinned, 0)
    case DoRetrieve(key) => if key == k && held then a.(uses := a.uses + 1) else a
    case DoPin(key) => if key == k then a.(pinned := true) else a
    case DoUnpin(key) => if key == k then a.(pinned := false) else a
    case DoRegister(_, _) => a
  }

  function Told(sha: Digest, maxCapacityMb: u64, ops: seq<Op>, k: string): Account {
    if ops == [] then Account([], "", 0, false, 0)
    else
      var front := ops[..|ops| - 1];
      Retold(sha, Told(sha, maxCapacityMb, front, k), k in Run(sha, New(maxCapacityMb), front).objects,
             ops[|ops| - 1], k)
  }

  /** The object an account describes; its counter is a u64. */
  function ObjectOf(sha: Digest, a: Account): StoredObject {
    StoredObject(ContentId(sha(a.data), |a.data|, a.mimeType, a.createdAt), a.data, a.pinned, [], a.uses % U64)
  }

  lemma OneMoreUse(n: nat)
    ensures (n % U64 + 1) % U64 == (n + 1) % U64
  {}

  /** An object an operation neither removes, inserts nor touches stays as it is. */
  lemma OthersStay(sha: Digest, s: Store, op: Op, k: string)
    requires k in Apply(sha, s, op).objects
    requires op.DoPut? ==> Hex(sha(op.data)) != k
    requires op.DoRetrieve? || op.DoPin? || op.DoUnpin? ==> op.key != k
    ensures k in s.objects && Apply(sha, s, op).objects[k] == s.objects[k]
  {
    if op.DoPut? { RemoveAllShape(s, Victims(s.objects, op.order)); }
  }

  lemma StoreTells(sha: Digest, s: Store, op: Op, a: Account)
    requires op.DoPut? && |op.data| <= MAX_OBJECT_SIZE
    requires var k := Hex(sha(op.data)); k in s.objects ==> s.objects[k] == ObjectOf(sha, a)
    ensures var k := Hex(sha(op.data));
      k in Apply(sha, s, op).objects && Apply(sha, s, op).objects[k] ==
        ObjectOf(sha, if k in s.objects then a.(uses := a.uses + 1)
                      else Account(op.data, op.mimeType, op.now, op.pinned, 0))
  {
    OneMoreUse(a.uses);
  }

  lemma StepTells(sha: Digest, s: Store, op: Op, k: string, a: Account)
    requires k in s.objects ==> s.objects[k] == ObjectOf(sha, a)
    requires k in Apply(sha, s, op).objects
    ensures Apply(sha, s, op).objects[k] == ObjectOf(sha, Retold(sha, a, k in s.objects, op, k))
  {
    if op.DoPut? && |op.data| <= MAX_OBJECT_SIZE && Hex(sha(op.data)) == k {
      StoreTells(sha, s, op, a);
    } else if op.DoRetrieve? && op.key == k {
      OneMoreUse(a.uses);
    } else if (op.DoPut? && Hex(sha(op.data)) != k) || op.DoRetrieve? {
      OthersStay(sha, s, op, k);
    }
  }

  /** Over any run, every stored object is the one its account describes. */
  lemma {:induction false} RunTells(sha: Digest, maxCapacityMb: u64, ops: seq<Op>, k: string)
    ensures var s := Run(sha, New(maxCapacityMb), ops);
      k in s.objects ==> s.objects[k] == ObjectOf(sha, Told(sha, maxCapacityMb, ops, k))
    decreases |ops|
  {
    if ops != [] && k in Run(sha, New(maxCapacityMb), ops).objects {
      var front := ops[..|ops| - 1];
      RunTells(sha, maxCapacityMb, front, k);
      StepTells(sha, Run(sha, New(maxCapacityMb), front), ops[|ops| - 1], k, Told(sha, maxCapacityMb, front, k));
    }
  }

  /** What is retrieved after any run: the data last inserted under the key, if it is held. */
  lemma RetrieveTells(sha: Digest, maxCapacityMb: u64, ops: seq<Op>, k: string)
    ensures var s := Run(sha, New(maxCapacityMb), ops);
      Retrieve(s, k).1 == if k in s.objects then Some(Told(sha, maxCapacityMb, ops, k).data) else None
  {
    RunTells(sha, maxCapacityMb, ops, k);
  }

  lemma VictimBefore(s: Store, order: seq<string>, x: string, y: string)
    requires Iterates(order, s.objects) && x in Gone(s, order) && y in s.objects.Keys - Gone(s, order)
    ensures x in s.objects && !s.objects[x].pinned
    ensures s.objects[y].pinned || s.objects[x].accessCount <= s.objects[y].accessCount
  {
    EvictionChoice(s, order);
    assert x in Unpinned(s.objects);
    if !s.objects[y].pinned { assert Count(s.objects, x) <= Count(s.objects, y); }
  }

  /** An eviction after any run, for every iteration order: what goes was not pinned, and was
      retrieved and stored again no more often than any unpinned object that stays. */
  lemma EvictsLeastUsed(sha: Digest, maxCapacityMb: u64, ops: seq<Op>, order: seq<string>, x: string, y: string)
    requires var s := Run(sha, New(maxCapacityMb), ops);
      Iterates(order, s.objects) && x in Gone(s, order) && y in s.objects.Keys - Gone(s, order)
    ensures !Told(sha, maxCapacityMb, ops, x).pinned
    ensures Told(sha, maxCapacityMb, ops, y).pinned
      || Told(sha, maxCapacityMb, ops, x).uses % U64 <= Told(sha, maxCapacityMb, ops, y).uses % U64
  {
    VictimBefore(Run(sha, New(maxCapacityMb), ops), order, x, y);
    RunTells(sha, maxCapacityMb, ops, x);
    RunTells(sha, maxCapacityMb, ops, y);
  }

  /** Which keys an operation leaves, and that it leaves the capacity alone. */
  lemma ApplyKeys(sha: Digest, s: Store, op: Op)
    ensures Apply(sha, s, op).maxCapacity == s.maxCapacity
    ensures Apply(sha, s, op).objects.Keys ==
      if op.DoPut? && |op.data| <= MAX_OBJECT_SIZE && Hex(sha(op.data)) !in s.objects then
        s.objects.Keys - (if Exceeds(s, |op.data|) then Gone(s, op.order) else {}) + {Hex(sha(op.data))}
      else s.objects.Keys
  {
    if op.DoPut? {
      RemoveAllShape(s, Victims(s.objects, op.order));
      assert Evict(s, op.order).objects.Keys <= s.objects.Keys;
    }
  }

  /** What storing and pinning answer. */
  lemma Answers(sha: Digest, s: Store, data: seq<byte>, mimeType: string, pinned: bool, now: u64, order: seq<string>,
                k: string)
    requires Valid(sha, s)
    ensures var (t, cid) := Put(sha, s, data, mimeType, pinned, now, order);
      && (cid == None <==> |data| > 25165824) && (cid == None ==> t == s)
      && (cid != None ==> Hex(sha(data)) in t.index && cid == Some(t.index[Hex(sha(data))]))
    ensures SetPinned(s, k, pinned).1 <==> k in s.objects
  {}

  /** The peers registered for a key, in order. */
  function PeersOf(ops: seq<Op>, k: string): seq<string> {
    if ops == [] then []
    else
      var peers, op := PeersOf(ops[..|ops| - 1], k), ops[|ops| - 1];
      if op.DoRegister? && op.key == k then peers + [op.peer] else peers
  }

  /** Over any run, whatever is stored or evicted, the replicas of a key are those registered. */
  lemma {:induction false} ReplicasAre(sha: Digest, maxCapacityMb: u64, ops: seq<Op>, k: string)
    ensures var s := Run(sha, New(maxCapacityMb), ops);
      (if k in s.replicas then s.replicas[k] else []) == PeersOf(ops, k)
    decreases |ops|
  {
    if ops != [] {
      var s, op := Run(sha, New(maxCapacityMb), ops[..|ops| - 1]), ops[|ops| - 1];
      ReplicasAre(sha, maxCapacityMb, ops[..|ops| - 1], k);
      if op.DoPut? { RemoveAllShape(s, Victims(s.objects, op.order)); }
    }
  }

  lemma HexSnoc(s: seq<byte>, b: byte)
    ensures Hex(s + [b]) == Hex(s) + HexByte(b)
  {
    assert (s + [b])[..|s|] == s;
  }

  /** Lower-case digits, high half first. */
  lemma KnownHex()
    ensures Hex([0x0F, 0xA9, 0xBC]) == "0fa9bc"
  {
    HexSnoc([0x0F, 0xA9], 0xBC);
    HexSnoc([0x0F], 0xA9);
    HexSnoc([], 0x0F);
    assert [0x0F, 0xA9] + [0xBC] == [0x0F, 0xA9, 0xBC] && [0x0F] + [0xA9] == [0x0F, 0xA9] && [] + [0x0F] == [0x0F];
    assert HexByte(0x0F) == "0f" && HexByte(0xA9) == "a9" && HexByte(0xBC) == "bc";
  }

  // ------------------------------------------------------------------
  // Capacity
  // ------------------------------------------------------------------

  /** The objects under these keys. */
  function Only(objects: Objects, keys: set<string>): Objects {
    map k | k in objects && k in keys :: objects[k]
  }

  lemma {:induction false} StoredSplits(objects: Objects, keys: set<string>)
    ensures Stored(objects) == Stored(objects - keys) + Stored(Only(objects, keys))
    decreases |objects|
  {
    if objects != map[] {
      var k :| k in objects;
      StoredSplits(objects - {k}, keys);
      RemoveTotals(objects, k);
      if k in keys {
        assert objects - {k} - keys == objects - keys;
        assert Only(objects - {k}, keys) == Only(objects, keys) - {k};
        RemoveTotals(Only(objects, keys), k);
      } else {
        assert objects - {k} - keys == objects - keys - {k};
        assert Only(objects - {k}, keys) == Only(objects, keys);
        RemoveTotals(objects - keys, k);
      }
    } else {
      assert objects - keys == map[] && Only(objects, keys) == map[];
      assert Contents(map[]) == map[];
    }
  }

  /** How many bytes an eviction frees. */
  ghost function Freed(s: Store, order: seq<string>): nat {
    Stored(Only(s.objects, Gone(s, order)))
  }

  lemma EvictionFrees(s: Store, order: seq<string>)
    requires Iterates(order, s.objects)
    ensures Stored(s.objects) == Stored(Evict(s, order).objects) + Freed(s, order)
  {
    EvictionChoice(s, order);
    StoredSplits(s.objects, Gone(s, order));
  }

  /** Below 2^64 bytes the guard says just that the data does not fit. */
  lemma ExceedsIff(s: Store, n: nat)
    requires Counts(s.usage, Stored(s.objects))
    ensures Stored(s.objects) + n < U64 ==> (Exceeds(s, n) <==> Stored(s.objects) + n > s.maxCapacity)
  {
    Adds(s.usage, Stored(s.objects), n);
  }

  lemma MakeRoomFrees(s: Store, n: nat, order: seq<string>)
    requires Iterates(order, s.objects)
    ensures Stored(MakeRoom(s, n, order).objects) + (if Exceeds(s, n) then Freed(s, order) else 0) == Stored(s.objects)
    ensures MakeRoom(s, n, order).objects.Keys <= s.objects.Keys
  {
    if Exceeds(s, n) {
      EvictionFrees(s, order);
      RemoveAllShape(s, Victims(s.objects, order));
    }
  }

  lemma InsertGrows(s: Store, k: string, o: StoredObject)
    requires k !in s.objects
    ensures Stored(Insert(s, k, o).objects) == Stored(s.objects) + |o.data|
  {
    InsertTotals(s, k, o);
  }

  /** Storing new data frees what the eviction chooses, if there is one, and adds its length.
      `store` evicts once, whatever room that makes: it stays within the capacity exactly when
      the data fits, or when an eviction runs and frees as many bytes as are missing. */
  lemma CapacityIff(sha: Digest, s: Store, data: seq<byte>, mimeType: string, pinned: bool, now: u64,
                    order: seq<string>)
    requires Valid(sha, s) && Iterates(order, s.objects)
    requires |data| <= MAX_OBJECT_SIZE && Hex(sha(data)) !in s.objects
    ensures var t := Put(sha, s, data, mimeType, pinned, now, order).0;
      var total := Stored(s.objects) + |data|;
      && Stored(t.objects) + (if Exceeds(s, |data|) then Freed(s, order) else 0) == total
      && (Stored(t.objects) <= s.maxCapacity <==>
           total <= s.maxCapacity || (Exceeds(s, |data|) && total - s.maxCapacity <= Freed(s, order)))
      && (total < U64 ==> (Exceeds(s, |data|) <==> total > s.maxCapacity))
  {
    ExceedsIff(s, |data|);
    MakeRoomFrees(s, |data|, order);
    InsertGrows(MakeRoom(s, |data|, order), Hex(sha(data)),
                StoredObject(ContentId(sha(data), |data|, mimeType, now), data, pinned, [], 0));
  }

  lemma FewUnpinnedAllGo(s: Store, order: seq<string>)
    requires Iterates(order, s.objects) && |Unpinned(s.objects)| <= EVICTION_BATCH
    ensures Gone(s, order) == Unpinned(s.objects) && Evict(s, order).objects == s.objects - Unpinned(s.objects)
  {
    EvictionChoice(s, order);
    SubsetOfSize(Gone(s, order), Unpinned(s.objects));
  }

  lemma SubsetOfSize(x: set<string>, y: set<string>)
    requires x <= y && |x| == |y|
    ensures x == y
  {
    if x != y {
      var e :| e in y && e !in x;
      assert x <= y - {e} && |y - {e}| == |y| - 1;
      SubsetCard(x, y - {e});
    }
  }

  lemma {:induction false} SubsetCard(x: set<string>, y: set<string>)
    requires x <= y
    ensures |x| <= |y|
    decreases |x|
  {
    if x != {} {
      var e :| e in x;
      SubsetCard(x - {e}, y - {e});
    }
  }

  /** With at most ten unpinned objects, whatever the iteration order: within the capacity
      exactly when the data fits, or when an eviction runs and it fits beside the pinned
      objects. */
  lemma FewUnpinnedCapacityIff(sha: Digest, s: Store, data: seq<byte>, mimeType: string, pinned: bool, now: u64,
                               order: seq<string>)
    requires Valid(sha, s) && Iterates(order, s.objects) && |Unpinned(s.objects)| <= EVICTION_BATCH
    requires |data| <= MAX_OBJECT_SIZE && Hex(sha(data)) !in s.objects
    ensures var t := Put(sha, s, data, mimeType, pinned, now, order).0;
      Stored(t.objects) <= s.maxCapacity <==>
        || Stored(s.objects) + |data| <= s.maxCapacity
        || (Exceeds(s, |data|) && Stored(s.objects - Unpinned(s.objects)) + |data| <= s.maxCapacity)
  {
    CapacityIff(sha, s, data, mimeType, pinned, now, order);
    FewUnpinnedAllGo(s, order);
    EvictionFrees(s, order);
  }

  /** A digest that tells byte strings of different lengths modulo 256 apart. */
  function LengthDigest(s: seq<byte>): Key32 {
    [|s| % 256] + seq(31, _ => 0)
  }

  lemma OneStored(k: string, o: StoredObject)
    ensures Stored(map[k := o]) == |o.data|
  {
    RemoveTotals(map[k := o], k);
    assert map[k := o] - {k} == map[] && Contents(map[]) == map[];
  }

  lemma LengthsTold(x: seq<byte>, y: seq<byte>)
    requires |x| % 256 != |y| % 256
    ensures Hex(LengthDigest(x)) != Hex(LengthDigest(y))
  {
    assert LengthDigest(x)[0] == |x| % 256 && LengthDigest(y)[0] == |y| % 256;
    if Hex(LengthDigest(x)) == Hex(LengthDigest(y)) { HexInjective(LengthDigest(x), LengthDigest(y)); }
  }

  /** The store that holds just this object, pinned, and is full. */
  predicate FullOf(s: Store, k: string, o: StoredObject) {
    s.objects == map[k := o] && o.pinned && s.usage == s.maxCapacity == |o.data|
  }

  lemma FirstPinned(sha: Digest, data: seq<byte>, mimeType: string, now: u64) returns (o: StoredObject)
    requires |data| == 1024 * 1024
    ensures var s := Run(sha, New(1), [DoPut(data, mimeType, true, now, [])]);
      Valid(sha, s) && FullOf(s, Hex(sha(data)), o)
  {
    var ops := [DoPut(data, mimeType, true, now, [])];
    assert ops[..0] == [] && Run(sha, New(1), ops) == Apply(sha, New(1), ops[0]);
    RunValid(sha, 1, ops);
    o := StoredObject(ContentId(sha(data), |data|, mimeType, now), data, true, [], 0);
  }

  lemma NothingFreed(s: Store, order: seq<string>)
    requires Iterates(order, s.objects) && Unpinned(s.objects) == {}
    ensures Freed(s, order) == 0
  {
    FewUnpinnedAllGo(s, order);
    assert Only(s.objects, {}) == map[] && Contents(map[]) == map[];
  }

  /** With everything pinned an eviction frees nothing. */
  lemma AllPinnedGrows(sha: Digest, s: Store, data: seq<byte>, mimeType: string, pinned: bool, now: u64,
                       order: seq<string>)
    requires Valid(sha, s) && Iterates(order, s.objects) && Unpinned(s.objects) == {}
    requires |data| <= MAX_OBJECT_SIZE && Hex(sha(data)) !in s.objects
    ensures Stored(Put(sha, s, data, mimeType, pinned, now, order).0.objects) == Stored(s.objects) + |data|
  {
    CapacityIff(sha, s, data, mimeType, pinned, now, order);
    NothingFreed(s, order);
  }

  lemma FullStore(s: Store, k: string, o: StoredObject)
    requires FullOf(s, k, o)
    ensures Iterates([k], s.objects) && Unpinned(s.objects) == {} && Stored(s.objects) == s.maxCapacity
  {
    OneStored(k, o);
    assert Elements([k]) == {k} == s.objects.Keys;
  }

  lemma FullOverflows(sha: Digest, s: Store, k: string, o: StoredObject, more: seq<byte>, mimeType: string, now: u64)
    requires Valid(sha, s) && FullOf(s, k, o) && |more| == 1 && Hex(sha(more)) != k
    ensures Iterates([k], s.objects) && Stored(s.objects) == s.maxCapacity
    ensures Stored(Put(sha, s, more, mimeType, false, now, [k]).0.objects) == s.maxCapacity + 1
  {
    FullStore(s, k, o);
    AllPinnedGrows(sha, s, more, mimeType, false, now, [k]);
  }

  /** A store of one megabyte, filled by one pinned object, that ends over its capacity. */
  lemma PinnedStoreOverflows(full: seq<byte>, more: seq<byte>, mimeType: string, now: u64)
    requires |full| == 1024 * 1024 && |more| == 1
    ensures var s := Run(LengthDigest, New(1), [DoPut(full, mimeType, true, now, [])]);
      var order := [Hex(LengthDigest(full))];
      && Valid(LengthDigest, s) && Iterates(order, s.objects) && Stored(s.objects) == s.maxCapacity
      && Stored(Put(LengthDigest, s, more, mimeType, false, now, order).0.objects) == s.maxCapacity + 1
  {
    var s := Run(LengthDigest, New(1), [DoPut(full, mimeType, true, now, [])]);
    var o := FirstPinned(LengthDigest, full, mimeType, now);
    LengthsTold(full, more);
    FullOverflows(LengthDigest, s, Hex(LengthDigest(full)), o, more, mimeType, now);
  }
}
