/** The message routes: the history of a conversation, deleting a conversation, and
    deleting one message for oneself or for both parties. */
module MessagesRoutes {
  import opened Wrappers
  import opened Seqs
  import opened Models
  import opened SocketServer

  /** The most messages one history reply holds. */
  const HistoryLimit: nat := 500

  /** An accepted friendship between `a` and `b`, requested by either. */
  predicate AreFriends(friends: seq<FriendRecord>, a: string, b: string) {
    exists k | 0 <= k < |friends| :: friends[k].status == Accepted && Links(friends[k], a, b)
  }

  /** The messages of the conversation between `caller` and `other` that the caller has not
      deleted for themselves, in stored order. */
  function Visible(rs: seq<StoredMessage>, caller: string, other: string): (r: seq<StoredMessage>)
    ensures forall v :: v in r <==> v in rs && Between(v.msg, caller, other) && caller !in v.msg.deletedFor
  {
    Filter((v: StoredMessage) => Between(v.msg, caller, other) && caller !in v.msg.deletedFor, rs)
  }

  function CreatedAt(v: StoredMessage): int { v.msg.createdAt }

  /** The reply entry for one message. `populate('replyTo')` leaves the reply link empty when
      the message replied to is no longer stored. */
  function Format(v: StoredMessage, rs: seq<StoredMessage>): (p: MessagePayload)
    ensures p.id == v.id && p.sender == v.msg.sender && p.recipient == v.msg.recipient
    ensures p.content == v.msg.content && p.createdAt == v.msg.createdAt
    ensures p.seenBy == v.msg.seenBy && p.reactions == v.msg.reactions
    ensures p.replyTo.Some? <==> v.msg.replyTo.Some? && HasMessage(rs, v.msg.replyTo.value)
    ensures p.replyTo.Some? ==> p.replyTo == v.msg.replyTo
  {
    var replyTo := if v.msg.replyTo.Some? && HasMessage(rs, v.msg.replyTo.value) then v.msg.replyTo else None;
    MessagePayload(v.id, v.msg.sender, v.msg.recipient, v.msg.content, replyTo,
                   v.msg.seenBy, v.msg.reactions, v.msg.createdAt)
  }

  datatype HistoryReply = NotFriends | History(entries: seq<MessagePayload>)

  /** `GET /:userId`: 403 unless the two are friends; otherwise the oldest (at most 500)
      messages of the conversation that the caller has not deleted, oldest first. */
  function ConversationHistory(friends: seq<FriendRecord>, rs: seq<StoredMessage>,
                               caller: string, other: string): (r: HistoryReply)
    ensures r.NotFriends? <==> !AreFriends(friends, caller, other)
    ensures r.History? ==> |r.entries| == if |Visible(rs, caller, other)| <= HistoryLimit then |Visible(rs, caller, other)| else HistoryLimit
    ensures r.History? ==> forall i, j | 0 <= i < j < |r.entries| :: r.entries[i].createdAt <= r.entries[j].createdAt
    ensures r.History? ==> forall e | e in r.entries ::
      exists v | v in rs :: Between(v.msg, caller, other) && caller !in v.msg.deletedFor && e == Format(v, rs)
    ensures r.History? && |Visible(rs, caller, other)| <= HistoryLimit ==>
      forall v | v in Visible(rs, caller, other) :: Format(v, rs) in r.entries
    ensures r.History? ==> forall e, v | e in r.entries && v in Visible(rs, caller, other) && Format(v, rs) !in r.entries ::
      e.createdAt <= v.msg.createdAt
    ensures r.History? ==> multiset(r.entries) <= multiset(FormatAll(Visible(rs, caller, other), rs))
  {
    var i := FirstWhere(friends, (f: FriendRecord) => f.status == Accepted && Links(f, caller, other));
    if i == |friends| then NotFriends
    else
      HistorySorted(rs, caller, other);
      HistorySound(rs, caller, other);
      HistoryComplete(rs, caller, other);
      HistoryOldest(rs, caller, other);
      History(OldestEntries(rs, caller, other))
  }

  /** The history query: the conversation sorted by `createdAt`, limited to 500, in reply
      form. No message appears in it twice. */
  function OldestEntries(rs: seq<StoredMessage>, caller: string, other: string): (entries: seq<MessagePayload>)
    ensures multiset(entries) <= multiset(FormatAll(Visible(rs, caller, other), rs))
  {
    HistoryNoRepeats(Visible(rs, caller, other), rs);
    FormatAll(Take(SortBy(Visible(rs, caller, other), CreatedAt), HistoryLimit), rs)
  }

  /** `messages.map(...)`: each message in its reply form. */
  function FormatAll(vs: seq<StoredMessage>, rs: seq<StoredMessage>): (ps: seq<MessagePayload>)
    ensures |ps| == |vs|
    ensures forall k | 0 <= k < |vs| :: ps[k] == Format(vs[k], rs)
  {
    seq(|vs|, k requires 0 <= k < |vs| => Format(vs[k], rs))
  }

  /** The reply holds min(500, n) entries, in ascending `createdAt`. */
  lemma HistorySorted(rs: seq<StoredMessage>, caller: string, other: string)
    ensures var entries := OldestEntries(rs, caller, other);
      && |entries| == (if |Visible(rs, caller, other)| <= HistoryLimit then |Visible(rs, caller, other)| else HistoryLimit)
      && (forall i, j | 0 <= i < j < |entries| :: entries[i].createdAt <= entries[j].createdAt)
  {
    var visible := Visible(rs, caller, other);
    var sorted := SortBy(visible, CreatedAt);
    var entries := OldestEntries(rs, caller, other);
    assert entries == FormatAll(Take(sorted, HistoryLimit), rs);
    assert |sorted| == |visible| by { assert |multiset(sorted)| == |multiset(visible)|; }
    forall a, b | 0 <= a < b < |entries| ensures entries[a].createdAt <= entries[b].createdAt {
      assert CreatedAt(sorted[a]) <= CreatedAt(sorted[b]);
    }
  }

  /** Above the limit the reply keeps the oldest messages: a message left out is no older than
      any entry kept. */
  lemma HistoryOldest(rs: seq<StoredMessage>, caller: string, other: string)
    ensures var entries := OldestEntries(rs, caller, other);
      forall e, v | e in entries && v in Visible(rs, caller, other) && Format(v, rs) !in entries ::
        e.createdAt <= v.msg.createdAt
  {
    var visible := Visible(rs, caller, other);
    var sorted := SortBy(visible, CreatedAt);
    var taken := Take(sorted, HistoryLimit);
    var entries := OldestEntries(rs, caller, other);
    assert entries == FormatAll(taken, rs);
    forall j | 0 <= j < |taken| ensures Format(sorted[j], rs) in entries {
      assert entries[j] == Format(sorted[j], rs);
    }
    forall e, v | e in entries && v in visible && Format(v, rs) !in entries
      ensures e.createdAt <= v.msg.createdAt
    {
      var a :| 0 <= a < |entries| && entries[a] == e;
      assert v in multiset(sorted);
      var k :| 0 <= k < |sorted| && sorted[k] == v;
      assert k >= |taken|;
      assert taken[a] == sorted[a];
      assert CreatedAt(sorted[a]) <= CreatedAt(sorted[k]);
    }
  }

  /** The reply repeats no message: its entries are a sub-multiset of the conversation. */
  lemma HistoryNoRepeats(visible: seq<StoredMessage>, rs: seq<StoredMessage>)
    ensures multiset(FormatAll(Take(SortBy(visible, CreatedAt), HistoryLimit), rs)) <= multiset(FormatAll(visible, rs))
  {
    var sorted := SortBy(visible, CreatedAt);
    var taken := Take(sorted, HistoryLimit);
    var rest := sorted[|taken|..];
    assert sorted == taken + rest;
    FormatAllConcat(taken, rest, rs);
    FormatAllPermutes(sorted, visible, rs);
  }

  lemma FormatAllConcat(a: seq<StoredMessage>, b: seq<StoredMessage>, rs: seq<StoredMessage>)
    ensures FormatAll(a + b, rs) == FormatAll(a, rs) + FormatAll(b, rs)
  {
    assert forall k | 0 <= k < |a + b| :: FormatAll(a + b, rs)[k] == (FormatAll(a, rs) + FormatAll(b, rs))[k];
  }

  /** Reordering the messages reorders their reply forms. */
  lemma {:induction false} FormatAllPermutes(a: seq<StoredMessage>, b: seq<StoredMessage>, rs: seq<StoredMessage>)
    requires multiset(a) == multiset(b)
    ensures multiset(FormatAll(a, rs)) == multiset(FormatAll(b, rs))
  {
    if a == [] {
      assert |b| == |multiset(b)| == 0;
    } else {
      assert a[0] in multiset(b);
      var k :| 0 <= k < |b| && b[k] == a[0];
      RemoveMatching(a, b, k);
      FormatAllPermutes(a[1..], b[..k] + b[k + 1..], rs);
      FormatAllPermutesStep(a, b, k, rs);
    }
  }

  /** One step of the permutation argument: matching first elements, matching rests. */
  lemma FormatAllPermutesStep(a: seq<StoredMessage>, b: seq<StoredMessage>, k: nat, rs: seq<StoredMessage>)
    requires a != [] && k < |b| && b[k] == a[0]
    requires multiset(FormatAll(a[1..], rs)) == multiset(FormatAll(b[..k] + b[k + 1..], rs))
    ensures multiset(FormatAll(a, rs)) == multiset(FormatAll(b, rs))
  {
    calc {
      multiset(FormatAll(a, rs));
      { FormatAllCons(a, rs); }
      multiset{Format(a[0], rs)} + multiset(FormatAll(a[1..], rs));
      multiset{Format(b[k], rs)} + multiset(FormatAll(b[..k] + b[k + 1..], rs));
      { FormatAllRemove(b, k, rs); }
      multiset(FormatAll(b, rs));
    }
  }

  lemma FormatAllCons(a: seq<StoredMessage>, rs: seq<StoredMessage>)
    requires a != []
    ensures multiset(FormatAll(a, rs)) == multiset{Format(a[0], rs)} + multiset(FormatAll(a[1..], rs))
  {
    assert a == [a[0]] + a[1..];
    FormatAllConcat([a[0]], a[1..], rs);
    assert FormatAll([a[0]], rs) == [Format(a[0], rs)];
  }

  /** Taking one message out takes its reply form out. */
  lemma FormatAllRemove(b: seq<StoredMessage>, k: nat, rs: seq<StoredMessage>)
    requires k < |b|
    ensures multiset(FormatAll(b, rs)) == multiset{Format(b[k], rs)} + multiset(FormatAll(b[..k] + b[k + 1..], rs))
  {
    var p, q := b[..k], b[k + 1..];
    assert b == p + ([b[k]] + q);
    FormatAllConcat(p, [b[k]] + q, rs);
    FormatAllConcat([b[k]], q, rs);
    FormatAllConcat(p, q, rs);
    var fp, fq := FormatAll(p, rs), FormatAll(q, rs);
    assert FormatAll([b[k]], rs) == [Format(b[k], rs)];
    assert FormatAll(b, rs) == fp + ([Format(b[k], rs)] + fq);
    assert multiset(fp + ([Format(b[k], rs)] + fq)) == multiset{Format(b[k], rs)} + multiset(fp + fq);
  }

  /** Every reply entry is the reply form of a message of the conversation that the caller
      has not deleted. */
  lemma HistorySound(rs: seq<StoredMessage>, caller: string, other: string)
    ensures forall e | e in OldestEntries(rs, caller, other) ::
      exists v | v in rs :: Between(v.msg, caller, other) && caller !in v.msg.deletedFor && e == Format(v, rs)
  {
    var visible := Visible(rs, caller, other);
    var sorted := SortBy(visible, CreatedAt);
    var taken := Take(sorted, HistoryLimit);
    var entries := OldestEntries(rs, caller, other);
    assert entries == FormatAll(taken, rs);
    forall e | e in entries
      ensures exists v | v in rs :: Between(v.msg, caller, other) && caller !in v.msg.deletedFor && e == Format(v, rs)
    {
      var k :| 0 <= k < |entries| && entries[k] == e;
      assert taken[k] == sorted[k];
      assert sorted[k] in multiset(visible);
      assert sorted[k] in visible;
    }
  }

  /** At or below the limit, every message of the conversation is in the reply. */
  lemma HistoryComplete(rs: seq<StoredMessage>, caller: string, other: string)
    ensures |Visible(rs, caller, other)| <= HistoryLimit ==>
      forall v | v in Visible(rs, caller, other) :: Format(v, rs) in OldestEntries(rs, caller, other)
  {
    var visible := Visible(rs, caller, other);
    var sorted := SortBy(visible, CreatedAt);
    var entries := OldestEntries(rs, caller, other);
    assert entries == FormatAll(Take(sorted, HistoryLimit), rs);
    assert |sorted| == |visible| by { assert |multiset(sorted)| == |multiset(visible)|; }
    forall v | v in visible && |visible| <= HistoryLimit ensures Format(v, rs) in entries {
      assert v in multiset(sorted);
      var k :| 0 <= k < |sorted| && sorted[k] == v;
      assert entries[k] == Format(v, rs);
    }
  }

  /** `DELETE /conversation/:userId`: every message between the two, whoever sent it and
      whether or not they are friends, is deleted for both. */
  method DeleteConversation(store: MessageStore, caller: string, other: string)
    returns (res: Response, deletedCount: nat)
    requires store.Valid()
    modifies store
    ensures store.Valid()
    ensures res == Response(200, "Conversation deleted")
    ensures forall v :: v in store.records <==> v in old(store.records) && !Between(v.msg, caller, other)
    ensures deletedCount == |old(store.records)| - |store.records|
  {
    deletedCount := store.Keep((v: StoredMessage) => !Between(v.msg, caller, other));
    res := Response(200, "Conversation deleted");
  }

  /** The change `for-me` makes: the caller added to `deletedFor` unless already there. */
  function WithDeletedFor(m: Message, u: string): (r: Message)
    ensures r == m.(deletedFor := r.deletedFor)
    ensures forall x :: x in r.deletedFor <==> x in m.deletedFor || x == u
    ensures NoDup(m.deletedFor) ==> NoDup(r.deletedFor)
  {
    if u in m.deletedFor then m else m.(deletedFor := m.deletedFor + [u])
  }

  /** Deleting for oneself twice is deleting once. */
  lemma WithDeletedForIdempotent(m: Message, u: string)
    ensures WithDeletedFor(WithDeletedFor(m, u), u) == WithDeletedFor(m, u)
  {
    assert u in WithDeletedFor(m, u).deletedFor;
  }

  /** `DELETE /:messageId/for-me`: 404 for an unknown id; otherwise the caller is recorded in
      the message's `deletedFor` (once) and nothing else changes. Any user may do this to any
      message. */
  method DeleteForMe(store: MessageStore, caller: string, messageId: string) returns (res: Response)
    requires store.Valid()
    modifies store
    ensures store.Valid()
    ensures FindMessage(old(store.records), messageId).None? ==>
      res == Response(404, "Message not found") && store.records == old(store.records)
    ensures FindMessage(old(store.records), messageId).Some? ==>
      && res == Response(200, "Message deleted for you")
      && store.records == ReplaceMessage(old(store.records), messageId,
                                         WithDeletedFor(FindMessage(old(store.records), messageId).value, caller))
  {
    var found := FindMessage(store.records, messageId);
    if found.None? {
      return Response(404, "Message not found");
    }
    if caller !in found.value.deletedFor {
      store.Save(messageId, WithDeletedFor(found.value, caller));
    } else {
      ReplaceSame(store.records, messageId);
    }
    res := Response(200, "Message deleted for you");
  }

  /** Saving a message unchanged leaves the collection as it was. */
  lemma ReplaceSame(rs: seq<StoredMessage>, id: string)
    requires UniqueBy(rs, MessageId) && FindMessage(rs, id).Some?
    ensures ReplaceMessage(rs, id, FindMessage(rs, id).value) == rs
  {
    var r := ReplaceMessage(rs, id, FindMessage(rs, id).value);
    forall k | 0 <= k < |rs| ensures r[k] == rs[k] {
      if rs[k].id == id {
        assert rs[k].msg == FindMessage(rs, id).value;
      }
    }
  }

  /** After deleting a message for oneself it no longer appears in one's own history of
      that conversation. */
  lemma DeletedForMeLeavesHistory(friends: seq<FriendRecord>, rs: seq<StoredMessage>,
                                  caller: string, other: string, messageId: string)
    requires UniqueBy(rs, MessageId) && FindMessage(rs, messageId).Some?
    ensures var after := ReplaceMessage(rs, messageId, WithDeletedFor(FindMessage(rs, messageId).value, caller));
      var r := ConversationHistory(friends, after, caller, other);
      r.History? ==> forall e | e in r.entries :: e.id != messageId
  {
    var after := ReplaceMessage(rs, messageId, WithDeletedFor(FindMessage(rs, messageId).value, caller));
    var r := ConversationHistory(friends, after, caller, other);
    forall v | v in after && v.id == messageId ensures caller in v.msg.deletedFor {
      var k :| 0 <= k < |after| && after[k] == v;
      assert after[k].msg == FindMessage(after, messageId).value;
    }
  }

  /** `DELETE /:messageId/for-everyone`: 404 for an unknown id, 403 unless the caller sent
      it, and otherwise the message is deleted for both parties. */
  method DeleteForEveryone(store: MessageStore, caller: string, messageId: string) returns (res: Response)
    requires store.Valid()
    modifies store
    ensures store.Valid()
    ensures FindMessage(old(store.records), messageId).None? ==>
      res == Response(404, "Message not found") && store.records == old(store.records)
    ensures FindMessage(old(store.records), messageId).Some? && FindMessage(old(store.records), messageId).value.sender != caller ==>
      res == Response(403, "You can only delete your own messages") && store.records == old(store.records)
    ensures FindMessage(old(store.records), messageId).Some? && FindMessage(old(store.records), messageId).value.sender == caller ==>
      && res == Response(200, "Message deleted for everyone")
      && forall v :: v in store.records <==> v in old(store.records) && v.id != messageId
  {
    var found := FindMessage(store.records, messageId);
    if found.None? {
      return Response(404, "Message not found");
    }
    if found.value.sender != caller {
      return Response(403, "You can only delete your own messages");
    }
    var _ := store.Keep((v: StoredMessage) => v.id != messageId);
    res := Response(200, "Message deleted for everyone");
  }

  /** Once a message is deleted for everyone, neither party's history shows it. */
  lemma DeletedForEveryoneLeavesHistory(friends: seq<FriendRecord>, rs: seq<StoredMessage>,
                                        viewer: string, other: string, messageId: string)
    requires UniqueBy(rs, MessageId)
    ensures var r := ConversationHistory(friends, KeepMessages(rs, (v: StoredMessage) => v.id != messageId), viewer, other);
      r.History? ==> forall e | e in r.entries :: e.id != messageId
  {
  }
}
