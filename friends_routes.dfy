/** The friend-request routes: request, accept, reject, the pending list, the friends list
    and removal, over the friend-request collection. */
module FriendsRoutes {
  import opened Wrappers
  import opened Seqs
  import opened Models

  /** `POST /request`. A request to oneself, or between a pair that already has a record of
      any status in either direction, is refused with 400 and creates nothing. Otherwise one
      pending record is created. `newId` is the id the new document gets, or `None` when
      saving throws; an id already taken is a duplicate-key error (500). */
  method Request(store: FriendStore, requesterId: string, recipientId: string,
                 newId: Option<string>, now: int)
    returns (res: Response)
    requires store.Valid()
    modifies store
    ensures store.Valid()
    ensures requesterId == recipientId ==>
      res == Response(400, "Cannot send request to yourself") && store.records == old(store.records)
    ensures requesterId != recipientId && PairIndex(old(store.records), requesterId, recipientId) < |old(store.records)| ==>
      res == Response(400, "Friend request already exists or you are already friends")
      && store.records == old(store.records)
    ensures res.status == 201 <==>
      && requesterId != recipientId
      && (forall k | 0 <= k < |old(store.records)| :: !Links(old(store.records)[k], requesterId, recipientId))
      && newId.Some? && FindFriend(old(store.records), newId.value).None?
    ensures res.status == 201 ==>
      res.message == "Friend request sent"
      && store.records == old(store.records) + [FriendRecord(newId.value, requesterId, recipientId, Pending, now)]
    ensures (requesterId != recipientId && PairIndex(old(store.records), requesterId, recipientId) == |old(store.records)|
             && res.status != 201) ==> res == Response(500, "Error sending friend request")
    ensures res.status != 201 ==> store.records == old(store.records)
  {
    if requesterId == recipientId {
      return Response(400, "Cannot send request to yourself");
    }
    if PairIndex(store.records, requesterId, recipientId) < |store.records| {
      return Response(400, "Friend request already exists or you are already friends");
    }
    if newId.None? || FindFriend(store.records, newId.value).Some? {
      return Response(500, "Error sending friend request");
    }
    var f := FriendRecord(newId.value, requesterId, recipientId, Pending, now);
    forall k | 0 <= k < |store.records| ensures store.records[k].id != f.id && !SamePair(store.records[k], f) {
      assert !Links(store.records[k], requesterId, recipientId);
    }
    store.Insert(f);
    res := Response(201, "Friend request sent");
  }

  /** Accept (`status` Accepted) or reject (`status` Rejected) the request `requestId`:
      404 if there is none, 403 unless the caller is its recipient, and otherwise the status is
      set whatever it was before. */
  method Decide(store: FriendStore, callerId: string, requestId: string, status: FriendStatus)
    returns (res: Response)
    requires store.Valid() && status != Pending
    modifies store
    ensures store.Valid()
    ensures FindFriend(old(store.records), requestId).None? ==>
      res == Response(404, "Friend request not found") && store.records == old(store.records)
    ensures FindFriend(old(store.records), requestId).Some? && FindFriend(old(store.records), requestId).value.recipient != callerId ==>
      res.status == 403 && store.records == old(store.records)
    ensures FindFriend(old(store.records), requestId).Some? && FindFriend(old(store.records), requestId).value.recipient == callerId ==>
      res.status == 200 && store.records == SetStatus(old(store.records), requestId, status)
    ensures res.status == 403 ==>
      res.message == if status == Accepted then "You can only accept requests sent to you"
                     else "You can only reject requests sent to you"
    ensures res.status == 200 ==>
      res.message == if status == Accepted then "Friend request accepted" else "Friend request rejected"
  {
    var found := FindFriend(store.records, requestId);
    if found.None? {
      return Response(404, "Friend request not found");
    }
    if found.value.recipient != callerId {
      return Response(403, if status == Accepted then "You can only accept requests sent to you"
                           else "You can only reject requests sent to you");
    }
    store.UpdateStatus(requestId, status);
    res := Response(200, if status == Accepted then "Friend request accepted" else "Friend request rejected");
  }

  /** `PUT /request/:requestId/accept`. */
  method Accept(store: FriendStore, callerId: string, requestId: string) returns (res: Response)
    requires store.Valid()
    modifies store
    ensures store.Valid()
    ensures res.status == 200 <==>
      FindFriend(old(store.records), requestId).Some? && FindFriend(old(store.records), requestId).value.recipient == callerId
    ensures res.status == 200 ==> store.records == SetStatus(old(store.records), requestId, Accepted)
    ensures res.status != 200 ==> store.records == old(store.records)
  {
    res := Decide(store, callerId, requestId, Accepted);
  }

  /** `PUT /request/:requestId/reject`. */
  method Reject(store: FriendStore, callerId: string, requestId: string) returns (res: Response)
    requires store.Valid()
    modifies store
    ensures store.Valid()
    ensures res.status == 200 <==>
      FindFriend(old(store.records), requestId).Some? && FindFriend(old(store.records), requestId).value.recipient == callerId
    ensures res.status == 200 ==> store.records == SetStatus(old(store.records), requestId, Rejected)
    ensures res.status != 200 ==> store.records == old(store.records)
  {
    res := Decide(store, callerId, requestId, Rejected);
  }

  /** The recipient may accept a request that was already rejected, and the reverse: the
      routes do not check that the request is still pending. */
  lemma DecisionIgnoresCurrentStatus(rs: seq<FriendRecord>, k: nat, status: FriendStatus)
    requires FriendsValid(rs) && k < |rs|
    ensures SetStatus(rs, rs[k].id, status)[k].status == status
    ensures forall j | 0 <= j < |rs| && j != k :: SetStatus(rs, rs[k].id, status)[j] == rs[j]
  {
    forall j | 0 <= j < |rs| && j != k ensures rs[j].id != rs[k].id {
      if j < k { assert FriendId(rs[j]) != FriendId(rs[k]); } else { assert FriendId(rs[k]) != FriendId(rs[j]); }
    }
  }

  function NegCreatedAt(f: FriendRecord): int { -f.createdAt }

  /** `GET /requests`: the pending requests addressed to the caller, newest first. */
  function PendingRequests(rs: seq<FriendRecord>, callerId: string): (r: seq<FriendRecord>)
    ensures forall f :: f in r <==> f in rs && f.recipient == callerId && f.status == Pending
    ensures forall i, j | 0 <= i < j < |r| :: r[i].createdAt >= r[j].createdAt
    ensures multiset(r) == multiset(Filter((f: FriendRecord) => f.recipient == callerId && f.status == Pending, rs))
  {
    var pending := Filter((f: FriendRecord) => f.recipient == callerId && f.status == Pending, rs);
    var r := SortBy(pending, NegCreatedAt);
    forall f ensures f in r <==> f in pending {
      assert f in r <==> f in multiset(r);
      assert f in pending <==> f in multiset(pending);
    }
    forall i, j | 0 <= i < j < |r| ensures r[i].createdAt >= r[j].createdAt {
      assert NegCreatedAt(r[i]) <= NegCreatedAt(r[j]);
    }
    r
  }

  /** The other party of a friendship, as `GET /list` picks it: the recipient when the caller
      is the requester, the requester otherwise. */
  function OtherParty(f: FriendRecord, callerId: string): string {
    if f.requester == callerId then f.recipient else f.requester
  }

  /** The accepted record links the caller to someone. */
  predicate AcceptedWith(f: FriendRecord, callerId: string) {
    f.status == Accepted && (f.requester == callerId || f.recipient == callerId)
  }

  /** `GET /list`: the other party of every accepted record the caller is part of. */
  function FriendsOf(rs: seq<FriendRecord>, callerId: string): (r: seq<string>)
    ensures |r| <= |rs|
    ensures forall x :: x in r <==> exists f | f in rs :: AcceptedWith(f, callerId) && OtherParty(f, callerId) == x
  {
    if rs == [] then []
    else
      var rest := FriendsOf(rs[1..], callerId);
      assert forall f :: f in rs <==> f == rs[0] || f in rs[1..];
      (if AcceptedWith(rs[0], callerId) then [OtherParty(rs[0], callerId)] else []) + rest
  }

  /** With no request to oneself on record, the friends list never names the caller. */
  lemma FriendsOfExcludesCaller(rs: seq<FriendRecord>, callerId: string)
    requires FriendsValid(rs)
    ensures callerId !in FriendsOf(rs, callerId)
  {
    forall f | f in rs && AcceptedWith(f, callerId) ensures OtherParty(f, callerId) != callerId {
      var k :| 0 <= k < |rs| && rs[k] == f;
      assert rs[k].requester != rs[k].recipient;
    }
  }

  /** With at most one record per pair, nobody appears twice in the friends list. */
  lemma {:induction false} FriendsOfNoDup(rs: seq<FriendRecord>, callerId: string)
    requires FriendsValid(rs)
    ensures NoDup(FriendsOf(rs, callerId))
  {
    if rs != [] {
      var tail := rs[1..];
      assert FriendsValid(tail) by {
        forall i, j | 0 <= i < j < |tail| ensures FriendId(tail[i]) != FriendId(tail[j]) {
          assert tail[i] == rs[i + 1] && tail[j] == rs[j + 1];
        }
      }
      FriendsOfNoDup(tail, callerId);
      if AcceptedWith(rs[0], callerId) {
        var x := OtherParty(rs[0], callerId);
        forall f | f in tail && AcceptedWith(f, callerId) ensures OtherParty(f, callerId) != x {
          var k :| 0 <= k < |tail| && tail[k] == f;
          assert rs[k + 1] == f;
          assert FriendId(rs[0]) != FriendId(rs[k + 1]);
        }
        var r := FriendsOf(rs, callerId);
        assert r == [x] + FriendsOf(tail, callerId);
        forall i, j | 0 <= i < j < |r| ensures r[i] != r[j] {
          if i == 0 { assert r[j] in FriendsOf(tail, callerId); }
          else { assert r[i] == FriendsOf(tail, callerId)[i - 1] && r[j] == FriendsOf(tail, callerId)[j - 1]; }
        }
      }
    }
  }

  /** `DELETE /:friendId`: the first record linking the two users, in either direction, is
      deleted if there is one; the reply is the same either way. */
  method Remove(store: FriendStore, callerId: string, friendId: string) returns (res: Response)
    requires store.Valid()
    modifies store
    ensures store.Valid()
    ensures res == Response(200, "Friend removed")
    ensures var i := PairIndex(old(store.records), callerId, friendId);
      store.records == if i < |old(store.records)| then old(store.records[..i] + store.records[i + 1..])
                       else old(store.records)
    ensures forall k | 0 <= k < |store.records| :: !Links(store.records[k], callerId, friendId)
  {
    var i := PairIndex(store.records, callerId, friendId);
    if i < |store.records| {
      ghost var rs := store.records;
      store.DeleteAt(i);
      forall k | 0 <= k < |store.records| ensures !Links(store.records[k], callerId, friendId) {
        var k' := if k < i then k else k + 1;
        assert store.records[k] == rs[k'];
        assert Links(rs[i], callerId, friendId);
        if k' > i {
          assert !SamePair(rs[i], rs[k']);
        }
      }
    }
    res := Response(200, "Friend removed");
  }
}
