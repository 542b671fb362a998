/** The stored records (messages, friend requests, users) and the collections that hold
    them. A collection is an object whose record sequence the route and socket handlers
    replace in place; the order of the sequence is the collection's natural order. */
module Models {
  import opened Wrappers
  import opened Seqs

  /** An HTTP reply of a route: the status code and the `message` field of its JSON body. */
  datatype Response = Response(status: int, message: string)

  /** One `{userId, emoji}` entry of a message's reaction list. */
  datatype Reaction = Reaction(userId: string, emoji: string)

  /** A message document: the fields of the message schema, `createdAt` in milliseconds. */
  datatype Message = Message(
    sender: string,
    recipient: string,
    content: string,
    deletedFor: seq<string>,
    replyTo: Option<string>,
    seenBy: seq<string>,
    reactions: seq<Reaction>,
    createdAt: int)

  /** A message together with its `_id`. */
  datatype StoredMessage = StoredMessage(id: string, msg: Message)

  /** The message was sent by `a` to `b` or by `b` to `a`. */
  predicate Between(m: Message, a: string, b: string) {
    (m.sender == a && m.recipient == b) || (m.sender == b && m.recipient == a)
  }

  function MessageId(r: StoredMessage): string { r.id }

  /** Some record has this id. */
  predicate HasMessage(rs: seq<StoredMessage>, id: string) {
    exists k | 0 <= k < |rs| :: rs[k].id == id
  }

  /** `Message.findById(id)`: the message stored under `id`, if any. */
  function FindMessage(rs: seq<StoredMessage>, id: string): (r: Option<Message>)
    ensures r.Some? <==> HasMessage(rs, id)
    ensures r.Some? ==> StoredMessage(id, r.value) in rs
    ensures r.Some? && UniqueBy(rs, MessageId) ==>
      forall k | 0 <= k < |rs| && rs[k].id == id :: rs[k].msg == r.value
  {
    var i := FirstWhere(rs, (r: StoredMessage) => r.id == id);
    if i < |rs| then
      assert rs[i] == StoredMessage(id, rs[i].msg);
      Some(rs[i].msg)
    else None
  }

  /** `message.save()` after an in-place change: the record with `id` now holds `m`. */
  function ReplaceMessage(rs: seq<StoredMessage>, id: string, m: Message): (r: seq<StoredMessage>)
    requires UniqueBy(rs, MessageId)
    ensures UniqueBy(r, MessageId)
    ensures HasMessage(rs, id) ==> FindMessage(r, id) == Some(m)
    ensures forall other | other != id :: FindMessage(r, other) == FindMessage(rs, other)
    ensures |r| == |rs|
    ensures forall k | 0 <= k < |rs| :: r[k].id == rs[k].id
  {
    var r := seq(|rs|, k requires 0 <= k < |rs| => if rs[k].id == id then StoredMessage(id, m) else rs[k]);
    assert forall k | 0 <= k < |rs| :: r[k].id == rs[k].id;
    r
  }

  /** `Message.deleteMany` with the filter on `keep` negated: the records kept, in order. */
  function KeepMessages(rs: seq<StoredMessage>, keep: StoredMessage -> bool): (r: seq<StoredMessage>)
    requires UniqueBy(rs, MessageId)
    ensures UniqueBy(r, MessageId)
    ensures forall x :: x in r <==> x in rs && keep(x)
  {
    FilterUniqueBy(keep, rs, MessageId);
    Filter(keep, rs)
  }

  /** A friend request's state. */
  datatype FriendStatus = Pending | Accepted | Rejected

  /** A friend-request document. */
  datatype FriendRecord = FriendRecord(
    id: string, requester: string, recipient: string, status: FriendStatus, createdAt: int)

  function FriendId(f: FriendRecord): string { f.id }

  /** The record links `a` and `b`, in either direction. */
  predicate Links(f: FriendRecord, a: string, b: string) {
    (f.requester == a && f.recipient == b) || (f.requester == b && f.recipient == a)
  }

  /** The two records link the same pair of users. */
  predicate SamePair(f: FriendRecord, g: FriendRecord) {
    Links(g, f.requester, f.recipient)
  }

  /** `Friend.findById(id)`. */
  function FindFriend(rs: seq<FriendRecord>, id: string): (r: Option<FriendRecord>)
    ensures r.Some? <==> exists k | 0 <= k < |rs| :: rs[k].id == id
    ensures r.Some? ==> r.value in rs && r.value.id == id
  {
    var i := FirstWhere(rs, (f: FriendRecord) => f.id == id);
    if i < |rs| then Some(rs[i]) else None
  }

  /** The position of the first record linking `a` and `b` (what `findOne` and `deleteOne`
      with the two-direction `$or` pick), or `|rs|`. */
  function PairIndex(rs: seq<FriendRecord>, a: string, b: string): (i: nat)
    ensures i <= |rs|
    ensures i < |rs| ==> Links(rs[i], a, b)
    ensures i == |rs| <==> forall k | 0 <= k < |rs| :: !Links(rs[k], a, b)
  {
    FirstWhere(rs, (f: FriendRecord) => Links(f, a, b))
  }

  /** The collection invariant the request route maintains: unique ids, no request to
      oneself, and at most one record per pair of users, whatever the direction. */
  ghost predicate FriendsValid(rs: seq<FriendRecord>) {
    && UniqueBy(rs, FriendId)
    && (forall k | 0 <= k < |rs| :: rs[k].requester != rs[k].recipient)
    && (forall i, j | 0 <= i < j < |rs| :: !SamePair(rs[i], rs[j]))
  }

  /** The record with `id` gets `status`; everything else stays. */
  function SetStatus(rs: seq<FriendRecord>, id: string, status: FriendStatus): (r: seq<FriendRecord>)
    requires FriendsValid(rs)
    ensures FriendsValid(r)
    ensures |r| == |rs|
    ensures forall k | 0 <= k < |rs| ::
      r[k] == if rs[k].id == id then rs[k].(status := status) else rs[k]
  {
    seq(|rs|, k requires 0 <= k < |rs| => if rs[k].id == id then rs[k].(status := status) else rs[k])
  }

  /** A user document. */
  datatype User = User(id: string, name: string, email: string, passwordHash: string)

  function UserId(u: User): string { u.id }
  function UserEmail(u: User): string { u.email }

  /** `User.findOne({ email })`. */
  function FindUserByEmail(us: seq<User>, email: string): (r: Option<User>)
    ensures r.Some? <==> exists k | 0 <= k < |us| :: us[k].email == email
    ensures r.Some? ==> r.value in us && r.value.email == email
  {
    var i := FirstWhere(us, (u: User) => u.email == email);
    if i < |us| then Some(us[i]) else None
  }

  /** The messages collection. */
  class MessageStore {
    var records: seq<StoredMessage>

    ghost predicate Valid()
      reads this
    {
      UniqueBy(records, MessageId)
    }

    constructor ()
      ensures Valid() && records == []
    {
      records := [];
    }

    /** `Message.create` with a fresh id. */
    method Insert(id: string, m: Message)
      requires Valid() && !HasMessage(records, id)
      modifies this
      ensures Valid()
      ensures records == old(records) + [StoredMessage(id, m)]
    {
      records := records + [StoredMessage(id, m)];
    }

    /** `message.save()` of a changed document. */
    method Save(id: string, m: Message)
      requires Valid()
      modifies this
      ensures Valid()
      ensures records == ReplaceMessage(old(records), id, m)
    {
      records := ReplaceMessage(records, id, m);
    }

    /** `deleteMany`/`findByIdAndDelete`: only the records satisfying `keep` remain. */
    method Keep(keep: StoredMessage -> bool) returns (deletedCount: nat)
      requires Valid()
      modifies this
      ensures Valid()
      ensures records == KeepMessages(old(records), keep)
      ensures deletedCount == |old(records)| - |records|
    {
      var before := |records|;
      records := KeepMessages(records, keep);
      deletedCount := before - |records|;
    }
  }

  /** The friend-request collection. */
  class FriendStore {
    var records: seq<FriendRecord>

    ghost predicate Valid()
      reads this
    {
      FriendsValid(records)
    }

    constructor ()
      ensures Valid() && records == []
    {
      records := [];
    }

    /** `new Friend({...}).save()` for a new pair. */
    method Insert(f: FriendRecord)
      requires Valid()
      requires forall k | 0 <= k < |records| :: records[k].id != f.id && !SamePair(records[k], f)
      requires f.requester != f.recipient
      modifies this
      ensures Valid()
      ensures records == old(records) + [f]
    {
      records := records + [f];
    }

    /** `friendRequest.status = ...; save()`. */
    method UpdateStatus(id: string, status: FriendStatus)
      requires Valid()
      modifies this
      ensures Valid()
      ensures records == SetStatus(old(records), id, status)
    {
      records := SetStatus(records, id, status);
    }

    /** `deleteOne`: the record at position `i` removed. */
    method DeleteAt(i: nat)
      requires Valid() && i < |records|
      modifies this
      ensures Valid()
      ensures records == old(records[..i] + records[i + 1..])
    {
      ghost var rs := records;
      records := records[..i] + records[i + 1..];
      forall a, b | 0 <= a < b < |records| ensures !SamePair(records[a], records[b]) && records[a].id != records[b].id {
        var a' := if a < i then a else a + 1;
        var b' := if b < i then b else b + 1;
        assert records[a] == rs[a'] && records[b] == rs[b'];
      }
    }
  }

  /** The users collection. */
  class UserStore {
    var records: seq<User>

    ghost predicate Valid()
      reads this
    {
      UniqueBy(records, UserId) && UniqueBy(records, UserEmail)
    }

    constructor ()
      ensures Valid() && records == []
    {
      records := [];
    }

    /** `User.create` with a fresh id and an unused e-mail address. */
    method Insert(u: User)
      requires Valid()
      requires forall k | 0 <= k < |records| :: records[k].id != u.id && records[k].email != u.email
      modifies this
      ensures Valid()
      ensures records == old(records) + [u]
    {
      records := records + [u];
    }

    /** `User.findByIdAndDelete(id)`. */
    method Remove(id: string)
      requires Valid()
      modifies this
      ensures Valid()
      ensures records == Filter((u: User) => u.id != id, old(records))
    {
      FilterUniqueBy((u: User) => u.id != id, records, UserId);
      FilterUniqueBy((u: User) => u.id != id, records, UserEmail);
      records := Filter((u: User) => u.id != id, records);
    }
  }
}
