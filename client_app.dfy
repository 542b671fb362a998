/** The chat client's state updaters: the reactions to socket events, the message-selection
    toggle, the send guard, the hidden-user list, bulk deletion and the user-list filter. */
module ChatClient {
  import opened Wrappers
  import opened Seqs
  import opened Strings
  import opened Models
  import opened OnlineUsers
  import opened SocketServer
  import opened UsersRoutes

  /** The part of the client's state the socket events update. `friendRequests` and `friends`
      hold the event data as received. */
  datatype ClientState = ClientState(
    onlineIds: seq<string>,
    typing: map<string, bool>,
    messages: seq<MessagePayload>,
    friendRequests: seq<string>,
    friends: seq<string>)

  /** An event the client's socket receives. */
  datatype Incoming =
    | OnlineUsersEv(ids: seq<string>)
    | UserOnlineEv(userId: string)
    | UserOfflineEv(userId: string)
    | UserTypingEv(from: string)
    | UserStopTypingEv(from: string)
    | MessageSeenEv(messageId: string, userId: string)
    | ReactionUpdatedEv(messageId: string, reactions: seq<Reaction>)
    | FriendRequestReceivedEv(request: string)
    | FriendRequestAcceptedEv(friend: string)
    | PrivateMessageEv(msg: MessagePayload)

  /** What the client receives for an event the server emits: the listener registered under
      the event's name, fed the fields it destructures. */
  function Received(p: Payload): (ev: Incoming)
    ensures p.OnlineUsersList? ==> ev == OnlineUsersEv(p.ids)
    ensures p.UserOnline? ==> ev == UserOnlineEv(p.userId)
    ensures p.UserOffline? ==> ev == UserOfflineEv(p.userId)
    ensures p.UserTyping? ==> ev == UserTypingEv(p.from)
    ensures p.UserStopTyping? ==> ev == UserStopTypingEv(p.from)
    ensures p.PrivateMessage? ==> ev == PrivateMessageEv(p.message)
    ensures p.MessageSeen? ==> ev == MessageSeenEv(p.messageId, p.seenBy)
    ensures p.ReactionUpdated? ==> ev == ReactionUpdatedEv(p.messageId, p.reactions)
    ensures !ev.FriendRequestReceivedEv? && !ev.FriendRequestAcceptedEv?
  {
    match p
    case OnlineUsersList(ids) => OnlineUsersEv(ids)
    case UserOnline(u) => UserOnlineEv(u)
    case UserOffline(u) => UserOfflineEv(u)
    case UserTyping(from, _) => UserTypingEv(from)
    case UserStopTyping(from, _) => UserStopTypingEv(from)
    case PrivateMessage(m) => PrivateMessageEv(m)
    case MessageSeen(id, u) => MessageSeenEv(id, u)
    case ReactionUpdated(id, rs) => ReactionUpdatedEv(id, rs)
  }

  // ---------------------------------------------------------------- online list

  /** `user_online`: the id is appended unless already listed. */
  function UserOnlineUpdate(prev: seq<string>, u: string): (r: seq<string>)
    ensures forall x :: x in r <==> x in prev || x == u
    ensures |prev| <= |r| && r[..|prev|] == prev
    ensures u in prev ==> r == prev
    ensures NoDup(prev) ==> NoDup(r)
  {
    if u in prev then prev else prev + [u]
  }

  /** `user_offline`: every occurrence of the id removed, the rest kept in order. */
  function UserOfflineUpdate(prev: seq<string>, u: string): (r: seq<string>)
    ensures forall x :: x in r <==> x in prev && x != u
    ensures u !in prev ==> r == prev
    ensures NoDup(prev) ==> NoDup(r)
  {
    assert u !in prev ==> Without(prev, u) == prev by {
      if u !in prev { WithoutAbsent(prev, u); }
    }
    assert NoDup(prev) ==> NoDup(Without(prev, u)) by {
      if NoDup(prev) { WithoutNoDup(prev, u); }
    }
    Without(prev, u)
  }

  /** Going offline and coming back online moves the user to the end of the list and leaves
      everyone else in place. */
  lemma OfflineThenOnline(prev: seq<string>, u: string)
    ensures UserOnlineUpdate(UserOfflineUpdate(prev, u), u) == UserOfflineUpdate(prev, u) + [u]
  {
  }

  // ---------------------------------------------------------------- typing indicators

  /** `user_typing`: the sender is marked as typing; no other entry changes. */
  function TypingUpdate(prev: map<string, bool>, from: string): (r: map<string, bool>)
    ensures r.Keys == prev.Keys + {from} && r[from]
    ensures forall k | k in prev && k != from :: r[k] == prev[k]
  {
    prev[from := true]
  }

  /** `user_stop_typing`: the sender's entry is deleted; no other entry changes. */
  function StopTypingUpdate(prev: map<string, bool>, from: string): (r: map<string, bool>)
    ensures r.Keys == prev.Keys - {from}
    ensures forall k | k in r :: r[k] == prev[k]
  {
    prev - {from}
  }

  /** A typing notice followed by a stop notice from someone not shown as typing before
      leaves the indicators as they were. */
  lemma TypingThenStopRestores(prev: map<string, bool>, from: string)
    requires from !in prev
    ensures StopTypingUpdate(TypingUpdate(prev, from), from) == prev
  {
  }

  // ---------------------------------------------------------------- messages

  /** `message_seen`: the matching message's `seenBy` becomes the duplicate-free union with the
      user; every other message, and every other field, is unchanged. */
  function MessageSeenUpdate(prev: seq<MessagePayload>, messageId: string, u: string): (r: seq<MessagePayload>)
    ensures |r| == |prev|
    ensures forall k | 0 <= k < |prev| && prev[k].id != messageId :: r[k] == prev[k]
    ensures forall k | 0 <= k < |prev| && prev[k].id == messageId ::
      && r[k] == prev[k].(seenBy := r[k].seenBy)
      && NoDup(r[k].seenBy)
      && (forall x :: x in r[k].seenBy <==> x in prev[k].seenBy || x == u)
  {
    seq(|prev|, k requires 0 <= k < |prev| =>
      if prev[k].id == messageId then prev[k].(seenBy := Dedup(prev[k].seenBy + [u])) else prev[k])
  }

  /** For a message whose `seenBy` has no duplicates, the client's union is exactly the list
      the server stores after `mark_as_seen`. */
  lemma ClientSeenMatchesServer(m: Message, u: string)
    requires NoDup(m.seenBy)
    ensures Dedup(m.seenBy + [u]) == WithSeen(m, u).seenBy
  {
    var s := m.seenBy + [u];
    assert s[..|s| - 1] == m.seenBy;
    DedupOfNoDup(m.seenBy);
  }

  /** `reaction_updated`: the matching message takes the new reaction list wholesale;
      every other message is unchanged. */
  function ReactionUpdatedUpdate(prev: seq<MessagePayload>, messageId: string, reactions: seq<Reaction>)
    : (r: seq<MessagePayload>)
    ensures |r| == |prev|
    ensures forall k | 0 <= k < |prev| ::
      r[k] == if prev[k].id == messageId then prev[k].(reactions := reactions) else prev[k]
  {
    seq(|prev|, k requires 0 <= k < |prev| =>
      if prev[k].id == messageId then prev[k].(reactions := reactions) else prev[k])
  }

  /** The id the client holds for the selected conversation: `selectedUser?.id || null`. */
  function SelectedRef(selectedId: Option<string>): Option<string> {
    if Present(selectedId) then selectedId else None
  }

  /** An incoming message belongs to the open conversation. */
  predicate Relevant(msg: MessagePayload, selectedId: Option<string>) {
    var ref := SelectedRef(selectedId);
    ref.Some? && (msg.sender == ref.value || msg.recipient == ref.value)
  }

  /** `private_message`: appended when it belongs to the open conversation, dropped otherwise. */
  function IncomingMessageUpdate(prev: seq<MessagePayload>, msg: MessagePayload, selectedId: Option<string>)
    : (r: seq<MessagePayload>)
    ensures Relevant(msg, selectedId) ==> r == prev + [msg]
    ensures !Relevant(msg, selectedId) ==> r == prev
    ensures !Present(selectedId) ==> r == prev
  {
    if Relevant(msg, selectedId) then prev + [msg] else prev
  }

  // ---------------------------------------------------------------- all events

  /** The state after one event, with `selectedId` the selected user's id. */
  function ApplyEvent(s: ClientState, selectedId: Option<string>, ev: Incoming): (r: ClientState)
    ensures !(ev.OnlineUsersEv? || ev.UserOnlineEv? || ev.UserOfflineEv?) ==> r.onlineIds == s.onlineIds
    ensures !(ev.UserTypingEv? || ev.UserStopTypingEv?) ==> r.typing == s.typing
    ensures !(ev.MessageSeenEv? || ev.ReactionUpdatedEv? || ev.PrivateMessageEv?) ==> r.messages == s.messages
    ensures !ev.FriendRequestReceivedEv? ==> r.friendRequests == s.friendRequests
    ensures !ev.FriendRequestAcceptedEv? ==> r.friends == s.friends
    ensures ev.FriendRequestReceivedEv? ==> r.friendRequests == s.friendRequests + [ev.request]
    ensures ev.FriendRequestAcceptedEv? ==> r.friends == s.friends + [ev.friend]
    ensures ev.OnlineUsersEv? ==> r.onlineIds == ev.ids
  {
    match ev
    case OnlineUsersEv(ids) => s.(onlineIds := ids)
    case UserOnlineEv(u) => s.(onlineIds := UserOnlineUpdate(s.onlineIds, u))
    case UserOfflineEv(u) => s.(onlineIds := UserOfflineUpdate(s.onlineIds, u))
    case UserTypingEv(from) => s.(typing := TypingUpdate(s.typing, from))
    case UserStopTypingEv(from) => s.(typing := StopTypingUpdate(s.typing, from))
    case MessageSeenEv(id, u) => s.(messages := MessageSeenUpdate(s.messages, id, u))
    case ReactionUpdatedEv(id, rs) => s.(messages := ReactionUpdatedUpdate(s.messages, id, rs))
    case FriendRequestReceivedEv(data) => s.(friendRequests := s.friendRequests + [data])
    case FriendRequestAcceptedEv(friend) => s.(friends := s.friends + [friend])
    case PrivateMessageEv(m) => s.(messages := IncomingMessageUpdate(s.messages, m, selectedId))
  }

  function ApplyEvents(s: ClientState, selectedId: Option<string>, evs: seq<Incoming>): ClientState
    decreases |evs|
  {
    if evs == [] then s else ApplyEvents(ApplyEvent(s, selectedId, evs[0]), selectedId, evs[1..])
  }

  /** Starting from a duplicate-free list, and with every snapshot duplicate-free (as the
      server's `online_users` snapshot is), the client's online list never holds an id twice. */
  lemma {:induction false} OnlineIdsStayDuplicateFree(s: ClientState, selectedId: Option<string>, evs: seq<Incoming>)
    requires NoDup(s.onlineIds)
    requires forall k | 0 <= k < |evs| && evs[k].OnlineUsersEv? :: NoDup(evs[k].ids)
    ensures NoDup(ApplyEvents(s, selectedId, evs).onlineIds)
    decreases |evs|
  {
    if evs != [] {
      var s' := ApplyEvent(s, selectedId, evs[0]);
      assert NoDup(s'.onlineIds);
      forall k | 0 <= k < |evs[1..]| && evs[1..][k].OnlineUsersEv? ensures NoDup(evs[1..][k].ids) {
        assert evs[1..][k] == evs[k + 1];
      }
      OnlineIdsStayDuplicateFree(s', selectedId, evs[1..]);
    }
  }

  /** Whatever `online_users`, `user_online` and `user_offline` events a connected client
      has seen, its list holds each id once, because the server's snapshot does. */
  lemma SnapshotThenEventsDuplicateFree(reg: Registry, s: ClientState, selectedId: Option<string>, evs: seq<Incoming>)
    requires reg.Valid()
    requires forall k | 0 <= k < |evs| :: evs[k].UserOnlineEv? || evs[k].UserOfflineEv?
    ensures NoDup(ApplyEvents(ApplyEvent(s, selectedId, Received(OnlineUsersList(reg.order))), selectedId, evs).onlineIds)
  {
    OnlineIdsStayDuplicateFree(ApplyEvent(s, selectedId, Received(OnlineUsersList(reg.order))), selectedId, evs);
  }

  // ---------------------------------------------------------------- selection

  /** Ticking a message in selection mode: removed if selected, appended otherwise. */
  function ToggleSelected(prev: seq<string>, id: string): (r: seq<string>)
    ensures id in r <==> id !in prev
    ensures forall x | x != id :: x in r <==> x in prev
    ensures NoDup(prev) ==> NoDup(r)
  {
    ToggleFlips(prev, id);
    assert NoDup(prev) ==> NoDup(Toggle(prev, id)) by {
      if NoDup(prev) { ToggleNoDup(prev, id); }
    }
    Toggle(prev, id)
  }

  /** Ticking an unselected message twice restores the selection, order included. */
  lemma ToggleSelectedTwice(prev: seq<string>, id: string)
    requires id !in prev
    ensures ToggleSelected(ToggleSelected(prev, id), id) == prev
  {
    ToggleTwiceAbsent(prev, id);
  }

  // ---------------------------------------------------------------- sending

  /** What the client emits on its socket. */
  datatype ClientEmit =
    | EmitStopTyping(to: string)
    | EmitPrivateMessage(to: string, content: string, replyTo: Option<string>)
    | EmitFriendRequest(recipientId: IdValue)

  /** `sendMessage`: nothing without a selected user or with blank text; otherwise a stop
      notice and the message, whose content is the text as typed (the server trims it) and
      whose reply link is set only when replying. */
  function SendMessage(text: string, selectedId: Option<string>, replyingTo: Option<string>): (r: seq<ClientEmit>)
    ensures r == [] <==> Trim(text) == [] || selectedId.None?
    ensures r != [] ==>
      r == [EmitStopTyping(selectedId.value),
            EmitPrivateMessage(selectedId.value, text, if Present(replyingTo) then replyingTo else None)]
  {
    if Trim(text) == [] || selectedId.None? then []
    else [EmitStopTyping(selectedId.value),
          EmitPrivateMessage(selectedId.value, text, if Present(replyingTo) then replyingTo else None)]
  }

  /** A message the client sends to a user with a non-empty id passes the server's
      `private_message` validation. */
  lemma SentMessagePassesServerCheck(text: string, selectedId: Option<string>, replyingTo: Option<string>)
    requires Present(selectedId) && SendMessage(text, selectedId, replyingTo) != []
    ensures var e := SendMessage(text, selectedId, replyingTo)[1];
      PresentId(Text(e.to)) && Present(Some(Trim(e.content)))
  {
  }

  // ---------------------------------------------------------------- hidden users

  /** The ids the user has hidden from the chat list (kept in local storage). */
  class HiddenUsers {
    var ids: seq<string>

    ghost predicate Valid()
      reads this
    {
      NoDup(ids)
    }

    constructor ()
      ensures Valid() && ids == []
    {
      ids := [];
    }

    /** Push the id unless it is already hidden. */
    method Hide(id: string)
      requires Valid()
      modifies this
      ensures Valid()
      ensures ids == if id in old(ids) then old(ids) else old(ids) + [id]
    {
      if id !in ids {
        ids := ids + [id];
      }
    }
  }

  /** `handleHideUser` (and the tail of `handleDeleteConversation` once the deletion
      succeeds): with a user selected and the dialog confirmed, the user is hidden, dropped
      from the list and deselected, and the open messages are cleared. */
  method HideSelected(hidden: HiddenUsers, users: seq<ListedUser>, selected: Option<ListedUser>, confirmed: bool)
    returns (users': seq<ListedUser>, selected': Option<ListedUser>, clearMessages: bool)
    requires hidden.Valid()
    modifies hidden
    ensures hidden.Valid()
    ensures selected.None? || !confirmed ==>
      hidden.ids == old(hidden.ids) && users' == users && selected' == selected && !clearMessages
    ensures selected.Some? && confirmed ==>
      && hidden.ids == (if selected.value.id in old(hidden.ids) then old(hidden.ids) else old(hidden.ids) + [selected.value.id])
      && (forall u :: u in users' <==> u in users && u.id != selected.value.id)
      && selected' == None && clearMessages
  {
    if selected.None? || !confirmed {
      return users, selected, false;
    }
    hidden.Hide(selected.value.id);
    users' := Filter((u: ListedUser) => u.id != selected.value.id, users);
    selected' := None;
    clearMessages := true;
  }

  // ---------------------------------------------------------------- bulk deletion

  datatype BulkDelete = NothingToDo | NotOwnMessages(error: string) | DeleteEach(ids: seq<string>)

  /** The selected messages the user sent, in conversation order (`myMessages`). */
  function OwnSelected(messages: seq<MessagePayload>, selected: seq<string>, me: string): (r: seq<MessagePayload>)
    ensures forall m :: m in r <==> m in messages && m.id in selected && m.sender == me
  {
    Filter((m: MessagePayload) => m.id in selected && m.sender == me, messages)
  }

  /** `handleDeleteMessagesForEveryone` before its requests: nothing when no message is
      selected or the dialog is declined, an error when none of the selected messages is the
      user's own, otherwise one request per own selected message. */
  function DeleteForEveryonePlan(messages: seq<MessagePayload>, selected: seq<string>, me: string, confirmed: bool)
    : (r: BulkDelete)
    ensures selected == [] ==> r == NothingToDo
    ensures selected != [] && (forall m | m in messages :: m.id !in selected || m.sender != me) ==>
      r == NotOwnMessages("You can only delete your own messages for everyone")
    ensures selected != [] && (exists m | m in messages :: m.id in selected && m.sender == me) ==>
      && (confirmed <==> r.DeleteEach?)
      && (!confirmed ==> r == NothingToDo)
    ensures r.DeleteEach? ==>
      && confirmed && |r.ids| >= 1
      && |r.ids| == |OwnSelected(messages, selected, me)|
      && (forall id | id in r.ids :: id in selected && exists m | m in messages :: m.id == id && m.sender == me)
      && (forall m | m in messages && m.id in selected && m.sender == me :: m.id in r.ids)
  {
    if selected == [] then NothingToDo
    else
      var mine := OwnSelected(messages, selected, me);
      assert mine != [] ==> mine[0] in mine;
      if mine == [] then NotOwnMessages("You can only delete your own messages for everyone")
      else if !confirmed then NothingToDo
      else DeleteEach(Ids(mine))
  }

  /** `ms.map((m) => m.id)`. */
  function Ids(ms: seq<MessagePayload>): (r: seq<string>)
    ensures |r| == |ms|
    ensures forall m | m in ms :: m.id in r
    ensures forall id | id in r :: exists m | m in ms :: m.id == id
  {
    if ms == [] then []
    else
      var rest := Ids(ms[1..]);
      assert forall m | m in ms[1..] :: m in ms;
      [ms[0].id] + rest
  }

  /** After the requests succeed, the deleted messages leave the open conversation. */
  function RemoveMessages(prev: seq<MessagePayload>, ids: seq<string>): (r: seq<MessagePayload>)
    ensures forall m :: m in r <==> m in prev && m.id !in ids
  {
    Filter((m: MessagePayload) => m.id !in ids, prev)
  }

  // ---------------------------------------------------------------- user list

  /** The directory with each user's `online` flag recomputed from the live online list. */
  function MergeOnline(data: seq<ListedUser>, onlineIds: seq<string>): (r: seq<ListedUser>)
    ensures |r| == |data|
    ensures forall k | 0 <= k < |data| :: r[k] == data[k].(online := data[k].id in onlineIds)
  {
    seq(|data|, k requires 0 <= k < |data| => data[k].(online := data[k].id in onlineIds))
  }

  /** The lowercased name or address contains the lowercased query. */
  predicate MatchesSearch(u: ListedUser, query: string) {
    Includes(Lower(u.name), Lower(query)) || Includes(Lower(u.email), Lower(query))
  }

  /** The chat list: without a query, everyone not hidden; with a query, everyone whose name
      or address matches it, hidden or not. */
  function ChatList(merged: seq<ListedUser>, query: string, hidden: seq<string>): (r: seq<ListedUser>)
    ensures |r| <= |merged|
    ensures query == [] ==> forall u :: u in r <==> u in merged && u.id !in hidden
    ensures query != [] ==> forall u :: u in r <==> u in merged && MatchesSearch(u, query)
  {
    Filter((u: ListedUser) => (query == [] || MatchesSearch(u, query)) && (query != [] || u.id !in hidden), merged)
  }

  /** A search reaches every matching user, hidden ones included: hiding only tidies the
      list shown without a query. */
  lemma SearchRevealsHidden(merged: seq<ListedUser>, query: string, hidden: seq<string>, u: ListedUser)
    requires u in merged && query != [] && OccursIn(Lower(query), Lower(u.name))
    ensures u in ChatList(merged, query, hidden)
  {
    IncludesIff(Lower(u.name), Lower(query));
  }

  /** The selected user is looked up again in the new list (the first entry with the id), and
      deselected if gone. */
  function RefreshSelected(filtered: seq<ListedUser>, selected: ListedUser): (r: Option<ListedUser>)
    ensures r.Some? <==> exists u | u in filtered :: u.id == selected.id
    ensures r.Some? ==> r.value in filtered && r.value.id == selected.id
    ensures r.Some? ==> exists k | 0 <= k < |filtered| ::
      filtered[k] == r.value && forall j | 0 <= j < k :: filtered[j].id != selected.id
  {
    var i := FirstWhere(filtered, (u: ListedUser) => u.id == selected.id);
    if i < |filtered| then Some(filtered[i]) else None
  }
}
