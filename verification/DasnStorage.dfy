/** The store as an object, each method proved against the value-level operation and shown to
    keep the books. */
module DasnStorageClass {
  import opened Bytes
  import opened DasnStore

  class DasnStorage {
    const sha: Digest
    var localStore: map<string, StoredObject>
    var cidIndex: map<string, ContentId>
    const maxCapacity: u64
    var currentUsage: u64
    var peerReplicas: map<string, seq<string>>

    function Value(): Store
      reads this
    {
      Store(localStore, cidIndex, maxCapacity, currentUsage, peerReplicas)
    }

    constructor (sha: Digest, maxCapacityMb: u64)
      ensures Value() == New(maxCapacityMb) && this.sha == sha && Valid(sha, Value())
    {
      this.sha := sha;
      localStore, cidIndex, peerReplicas := map[], map[], map[];
      maxCapacity := maxCapacityMb * 1024 * 1024 % U64;
      currentUsage := 0;
      new;
      RunValid(sha, maxCapacityMb, []);
    }

    /** Stores data; `order` is the order in which the map happens to be iterated. */
    method StoreData(data: seq<byte>, mimeType: string, pinned: bool, now: u64, order: seq<string>)
      returns (cid: Option<ContentId>)
      modifies this
      ensures (Value(), cid) == Put(sha, old(Value()), data, mimeType, pinned, now, order)
      ensures Valid(sha, old(Value())) ==> Valid(sha, Value())
    {
      ghost var s := Value();
      if Valid(sha, s) { PutValid(sha, s, data, mimeType, pinned, now, order); }
      if |data| > MAX_OBJECT_SIZE {
        return None;
      }
      var hash := sha(data);
      var hashHex := Hex(hash);
      if hashHex in localStore {
        localStore := localStore[hashHex := Accessed(localStore[hashHex])];
        return Some(localStore[hashHex].cid);
      }
      if Wrap64(currentUsage + |data|) > maxCapacity {
        EvictLru(order);
      }
      var id := ContentId(hash, |data|, mimeType, now);
      InsertObject(hashHex, StoredObject(id, data, pinned, [], 0));
      cid := Some(id);
    }

    method InsertObject(key: string, obj: StoredObject)
      modifies this`localStore, this`cidIndex, this`currentUsage
      ensures Value() == Insert(old(Value()), key, obj)
    {
      currentUsage := Wrap64(currentUsage + |obj.data|);
      cidIndex := cidIndex[key := obj.cid];
      localStore := localStore[key := obj];
    }

    method RetrieveData(hashHex: string) returns (data: Option<seq<byte>>)
      modifies this`localStore
      ensures (Value(), data) == Retrieve(old(Value()), hashHex)
      ensures Valid(sha, old(Value())) ==> Valid(sha, Value())
    {
      if hashHex in localStore {
        if Valid(sha, Value()) { TouchValid(sha, Value(), hashHex); }
        localStore := localStore[hashHex := Accessed(localStore[hashHex])];
        data := Some(localStore[hashHex].data);
      } else {
        data := None;
      }
    }

    method Pin(hashHex: string) returns (found: bool)
      modifies this`localStore
      ensures (Value(), found) == SetPinned(old(Value()), hashHex, true)
      ensures Valid(sha, old(Value())) ==> Valid(sha, Value())
    {
      found := hashHex in localStore;
      if found {
        var obj := localStore[hashHex].(pinned := true);
        if Valid(sha, Value()) { ReplaceValid(sha, Value(), hashHex, obj); }
        localStore := localStore[hashHex := obj];
      }
    }

    method Unpin(hashHex: string) returns (found: bool)
      modifies this`localStore
      ensures (Value(), found) == SetPinned(old(Value()), hashHex, false)
      ensures Valid(sha, old(Value())) ==> Valid(sha, Value())
    {
      found := hashHex in localStore;
      if found {
        var obj := localStore[hashHex].(pinned := false);
        if Valid(sha, Value()) { ReplaceValid(sha, Value(), hashHex, obj); }
        localStore := localStore[hashHex := obj];
      }
    }

    method AddReplica(cidHex: string, peerId: string)
      modifies this`peerReplicas
      ensures Value() == RegisterReplica(old(Value()), cidHex, peerId)
      ensures Valid(sha, old(Value())) ==> Valid(sha, Value())
    {
      var peers := if cidHex in peerReplicas then peerReplicas[cidHex] else [];
      peerReplicas := peerReplicas[cidHex := peers + [peerId]];
    }

    /** `evict_lru`: collect the unpinned keys, sort them, remove the first ten. */
    method EvictLru(order: seq<string>)
      modifies this`localStore, this`cidIndex, this`currentUsage
      ensures Value() == Evict(old(Value()), order)
      ensures Valid(sha, old(Value())) ==> Valid(sha, Value())
    {
      ghost var s := Value();
      if Valid(sha, s) { RemoveAllValid(sha, s, Victims(s.objects, order)); }
      var candidates: seq<string> := [];
      for i := 0 to |order|
        invariant candidates == Candidates(localStore, order[..i])
      {
        assert order[..i + 1][..i] == order[..i];
        if order[i] in localStore && !localStore[order[i]].pinned {
          candidates := candidates + [order[i]];
        }
      }
      assert order[..|order|] == order;
      var sorted := SortByCount(localStore, candidates);
      RemoveKeys(if |sorted| <= EVICTION_BATCH then sorted else sorted[..EVICTION_BATCH]);
    }

    method RemoveKeys(keys: seq<string>)
      modifies this`localStore, this`cidIndex, this`currentUsage
      ensures Value() == RemoveAll(old(Value()), keys)
    {
      ghost var s := Value();
      for i := 0 to |keys|
        invariant Value() == RemoveAll(s, keys[..i])
      {
        assert keys[..i + 1][..i] == keys[..i];
        RemoveKey(keys[i]);
      }
      assert keys[..|keys|] == keys;
    }

    method RemoveKey(key: string)
      modifies this`localStore, this`cidIndex, this`currentUsage
      ensures Value() == RemoveOne(old(Value()), key)
    {
      if key in localStore {
        currentUsage := Wrap64(currentUsage - |localStore[key].data|);
        cidIndex := cidIndex - {key};
        localStore := localStore - {key};
      }
    }
  }
}
