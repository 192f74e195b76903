/** The group key manager as an object, proved against the value-level operations. */
module GroupKeyManagerClass {
  import opened Bytes
  import opened GroupKeys

  class GroupKeyManager {
    const c: Primitives
    var groups: Manager

    constructor (c: Primitives)
      ensures groups == Run(c, []) && this.c == c
    {
      this.c := c;
      groups := map[];
    }

    method CreateGroup(groupId: Id, creatorId: Id) returns (r: Outcome<()>)
      modifies this
      ensures (groups, r) == Apply(c, old(groups), Create(groupId, creatorId))
    {
      var key := SenderKey(c, groupId, creatorId, 0);
      groups := groups[groupId := Group(map[], key, 0)];
      r := Ok(());
    }

    method RegisterMember(groupId: Id, memberId: Id) returns (r: Outcome<()>)
      modifies this
      ensures (groups, r) == Apply(c, old(groups), Register(groupId, memberId))
    {
      if groupId !in groups {
        return GroupNotFound;
      }
      var group := groups[groupId];
      var key := SenderKey(c, groupId, memberId, group.epoch);
      groups := groups[groupId := group.(senderKeys := group.senderKeys[memberId := key])];
      r := Ok(());
    }

    method RatchetGroup(groupId: Id) returns (r: Outcome<()>)
      modifies this
      ensures (groups, r) == Apply(c, old(groups), Ratchet(groupId))
    {
      if groupId !in groups {
        return GroupNotFound;
      }
      var group := groups[groupId];
      var epoch := Next32(group.epoch);
      var key := DeriveKey(c, group.currentKey, epoch);
      groups := groups[groupId := Group(map[], key, epoch)];
      r := Ok(());
    }

    method RemoveMember(groupId: Id, memberId: Id) returns (r: Outcome<()>)
      modifies this
      ensures (groups, r) == Apply(c, old(groups), Remove(groupId, memberId))
    {
      if groupId !in groups {
        return GroupNotFound;
      }
      ghost var before := groups;
      var group := groups[groupId];
      groups := groups[groupId := group.(senderKeys := group.senderKeys - {memberId})];
      r := RatchetGroup(groupId);
      assert groups == before[groupId := groups[groupId]];
    }

    method EncryptGroupMessage(groupId: Id, senderId: Id, plaintext: seq<byte>) returns (r: Outcome<seq<byte>>)
      ensures r == Encrypt(c, groups, groupId, senderId, plaintext)
    {
      if groupId !in groups {
        return GroupNotFound;
      }
      var group := groups[groupId];
      var key := if senderId in group.senderKeys then group.senderKeys[senderId] else group.currentKey;
      r := Ok(c.seal(key, key[..12], plaintext));
    }

    method DecryptGroupMessage(groupId: Id, senderId: Id, ciphertext: seq<byte>) returns (r: Outcome<seq<byte>>)
      ensures r == Decrypt(c, groups, groupId, senderId, ciphertext)
    {
      if groupId !in groups {
        return GroupNotFound;
      }
      var group := groups[groupId];
      var key := if senderId in group.senderKeys then group.senderKeys[senderId] else group.currentKey;
      var plaintext := c.open(key, key[..12], ciphertext);
      r := match plaintext case Some(p) => Ok(p) case None => DecryptFailed;
    }
  }
}
