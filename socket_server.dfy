/** The realtime server: the allowed-origin list and its CORS predicate, the token gate,
    and the per-connection socket event handlers, each a transition over the presence
    registry and the messages collection that returns the events it emits. */
module SocketServer {
  import opened Wrappers
  import opened Seqs
  import opened Strings
  import opened OnlineUsers
  import opened Models

  // ---------------------------------------------------------------- origins

  /** Each comma-separated entry trimmed. */
  function TrimAll(entries: seq<string>): (r: seq<string>)
    ensures |r| == |entries|
    ensures forall k | 0 <= k < |entries| :: r[k] == Trim(entries[k])
  {
    seq(|entries|, k requires 0 <= k < |entries| => Trim(entries[k]))
  }

  /** The allowed origins from `CLIENT_ORIGIN`: its comma-separated entries, trimmed, or
      `['*']` when the variable is unset or empty. */
  function AllowedOrigins(clientOrigin: Option<string>): (r: seq<string>)
    ensures |r| >= 1
    ensures clientOrigin.None? || clientOrigin == Some("") ==> r == ["*"]
  {
    if clientOrigin.None? || clientOrigin.value == "" then ["*"]
    else TrimAll(Split(clientOrigin.value, ','))
  }

  /** The CORS decision, for HTTP and for sockets alike: a request without an origin, any
      origin when the list holds `'*'`, or an origin the list holds exactly. */
  predicate OriginAllowed(origin: Option<string>, allowed: seq<string>): (b: bool)
    ensures origin.None? || origin == Some("") ==> b
    ensures "*" in allowed ==> b
    ensures b && origin.Some? && origin.value != "" && "*" !in allowed ==> origin.value in allowed
  {
    origin.None? || origin.value == "" || "*" in allowed || origin.value in allowed
  }

  /** With `CLIENT_ORIGIN` set to the entries `entries` joined by commas, an origin is let
      through iff it is empty or some entry, once trimmed, is `'*'` or the origin itself. */
  lemma OriginAllowedIff(entries: seq<string>, origin: string)
    requires |entries| >= 1
    requires forall k | 0 <= k < |entries| :: ',' !in entries[k]
    requires Join(entries, ',') != ""
    ensures OriginAllowed(Some(origin), AllowedOrigins(Some(Join(entries, ','))))
      <==> origin == "" || exists k | 0 <= k < |entries| :: Trim(entries[k]) == "*" || Trim(entries[k]) == origin
  {
    ParsedEntries(entries);
    TrimAllContains(entries, "*");
    TrimAllContains(entries, origin);
  }

  /** The list parsed from entries joined by commas is those entries, trimmed. */
  lemma ParsedEntries(entries: seq<string>)
    requires |entries| >= 1
    requires forall k | 0 <= k < |entries| :: ',' !in entries[k]
    requires Join(entries, ',') != ""
    ensures AllowedOrigins(Some(Join(entries, ','))) == TrimAll(entries)
  {
    var v := Join(entries, ',');
    SplitJoin(entries, ',');
    assert Split(v, ',') == entries;
    assert AllowedOrigins(Some(v)) == TrimAll(Split(v, ','));
  }

  /** A value is in the trimmed list iff some entry trims to it. */
  lemma TrimAllContains(entries: seq<string>, x: string)
    ensures x in TrimAll(entries) <==> exists k | 0 <= k < |entries| :: Trim(entries[k]) == x
  {
    var t := TrimAll(entries);
    if x in t {
      var k :| 0 <= k < |t| && t[k] == x;
      assert Trim(entries[k]) == x;
    }
  }

  /** Without `CLIENT_ORIGIN` every origin is allowed. */
  lemma UnsetAllowsEverything(origin: Option<string>)
    ensures OriginAllowed(origin, AllowedOrigins(None))
  {
  }

  // ---------------------------------------------------------------- connection gate

  /** The outcome of the `io.use` middleware. */
  datatype GateResult = Admitted(userId: string) | Refused(error: string)

  /** `io.use`: a missing or empty token, or one the verifier rejects, refuses the socket with
      "Unauthorized"; otherwise the socket's user is the token's subject. `verify` stands for
      `jwt.verify` with the server's secret: the subject of a valid token, `None` if it throws. */
  function Authenticate(token: Option<string>, verify: string -> Option<string>): (r: GateResult)
    ensures r.Admitted? <==> token.Some? && token.value != "" && verify(token.value).Some?
    ensures r.Admitted? ==> r.userId == verify(token.value).value
    ensures r.Refused? ==> r.error == "Unauthorized"
  {
    if token.None? || token.value == "" then Refused("Unauthorized")
    else match verify(token.value)
      case None => Refused("Unauthorized")
      case Some(sub) => Admitted(sub)
  }

  // ---------------------------------------------------------------- events

  /** Where an emitted event goes. `UnresolvedRoom` is `io.to(undefined)`, whose delivery
      is not modelled. */
  datatype Target = Caller | AllOthers | Socket(id: string) | UnresolvedRoom

  /** The wire form of a message sent on the socket or returned by history. */
  datatype MessagePayload = MessagePayload(
    id: string, sender: string, recipient: string, content: string, replyTo: Option<string>,
    seenBy: seq<string>, reactions: seq<Reaction>, createdAt: int)

  datatype Payload =
    | OnlineUsersList(ids: seq<string>)
    | UserOnline(userId: string)
    | UserOffline(userId: string)
    | UserTyping(from: string, to: IdValue)
    | UserStopTyping(from: string, to: IdValue)
    | PrivateMessage(message: MessagePayload)
    | MessageSeen(messageId: string, seenBy: string)
    | ReactionUpdated(messageId: string, reactions: seq<Reaction>)

  datatype Outbound = Emit(target: Target, payload: Payload)

  /** What the `private_message` handler passes to the sender's acknowledgement callback. */
  datatype Ack = Sent(message: MessagePayload) | Failed(reason: string)

  /** The truthiness of an id value (`!to`). */
  predicate PresentId(v: IdValue) {
    !v.Missing? && v != Text("")
  }

  // ---------------------------------------------------------------- message updates

  /** `mark_as_seen`'s change: the user added to `seenBy` unless already there. */
  function WithSeen(m: Message, u: string): (r: Message)
    ensures r == m.(seenBy := r.seenBy)
    ensures forall x :: x in r.seenBy <==> x in m.seenBy || x == u
    ensures NoDup(m.seenBy) ==> NoDup(r.seenBy)
  {
    if u in m.seenBy then m else m.(seenBy := m.seenBy + [u])
  }

  /** Marking twice is marking once. */
  lemma WithSeenIdempotent(m: Message, u: string)
    ensures WithSeen(WithSeen(m, u), u) == WithSeen(m, u)
  {
  }

  /** `add_reaction`'s change: every `(u, emoji)` entry removed if there is one, else one appended. */
  function WithReactionToggled(m: Message, u: string, emoji: string): (r: Message)
    ensures r == m.(reactions := r.reactions)
    ensures Reaction(u, emoji) in r.reactions <==> Reaction(u, emoji) !in m.reactions
    ensures forall x | x != Reaction(u, emoji) :: x in r.reactions <==> x in m.reactions
  {
    ToggleFlips(m.reactions, Reaction(u, emoji));
    m.(reactions := Toggle(m.reactions, Reaction(u, emoji)))
  }

  /** Reacting twice with a new emoji restores the reaction list. */
  lemma ReactionToggleTwice(m: Message, u: string, emoji: string)
    requires Reaction(u, emoji) !in m.reactions
    ensures WithReactionToggled(WithReactionToggled(m, u, emoji), u, emoji) == m
  {
    ToggleTwiceAbsent(m.reactions, Reaction(u, emoji));
  }

  /** Other users' reactions, and the user's other emoji, keep their entries and order. */
  lemma ReactionToggleElsewhere(m: Message, u: string, emoji: string)
    ensures Without(WithReactionToggled(m, u, emoji).reactions, Reaction(u, emoji))
         == Without(m.reactions, Reaction(u, emoji))
  {
    ToggleElsewhereUnchanged(m.reactions, Reaction(u, emoji));
  }

  // ---------------------------------------------------------------- handlers

  /** `connection`: register the socket, send it the online list (which now includes its
      own user), then tell every other socket the user is online. */
  method OnConnection(reg: Registry, userId: string, socketId: string) returns (events: seq<Outbound>)
    requires reg.Valid()
    modifies reg
    ensures reg.Valid()
    ensures reg.sockets == Apply(old(reg.sockets), Register(Text(userId), socketId))
    ensures reg.order == if userId in old(reg.sockets) then old(reg.order) else old(reg.order) + [userId]
    ensures events == [Emit(Caller, OnlineUsersList(reg.order)), Emit(AllOthers, UserOnline(userId))]
    ensures userId in events[0].payload.ids
  {
    reg.SetOnline(Text(userId), socketId);
    var ids := reg.GetOnlineUserIds();
    events := [Emit(Caller, OnlineUsersList(ids)), Emit(AllOthers, UserOnline(userId))];
  }

  /** `typing` / `stop_typing`: one event to the target's socket when it has one. */
  method Forward(reg: Registry, to: IdValue, event: Payload) returns (events: seq<Outbound>)
    requires reg.Valid()
    ensures Key(to) in reg.sockets && reg.sockets[Key(to)] != "" ==>
      events == [Emit(Socket(reg.sockets[Key(to)]), event)]
    ensures !(Key(to) in reg.sockets && reg.sockets[Key(to)] != "") ==> events == []
  {
    var target := reg.GetSocketId(to);
    if Present(target) {
      events := [Emit(Socket(target.value), event)];
    } else {
      events := [];
    }
  }

  method OnTyping(reg: Registry, userId: string, to: IdValue) returns (events: seq<Outbound>)
    requires reg.Valid()
    ensures Key(to) in reg.sockets && reg.sockets[Key(to)] != "" ==>
      events == [Emit(Socket(reg.sockets[Key(to)]), UserTyping(userId, to))]
    ensures !(Key(to) in reg.sockets && reg.sockets[Key(to)] != "") ==> events == []
  {
    events := Forward(reg, to, UserTyping(userId, to));
  }

  method OnStopTyping(reg: Registry, userId: string, to: IdValue) returns (events: seq<Outbound>)
    requires reg.Valid()
    ensures Key(to) in reg.sockets && reg.sockets[Key(to)] != "" ==>
      events == [Emit(Socket(reg.sockets[Key(to)]), UserStopTyping(userId, to))]
    ensures !(Key(to) in reg.sockets && reg.sockets[Key(to)] != "") ==> events == []
  {
    events := Forward(reg, to, UserStopTyping(userId, to));
  }

  /** The document `private_message` creates: the trimmed content, `replyTo` only when given. */
  function NewMessage(userId: string, to: IdValue, content: string, replyTo: Option<string>, now: int): (m: Message)
    ensures m.sender == userId && m.recipient == Key(to) && m.createdAt == now
    ensures m.content == content
    ensures m.seenBy == [] && m.reactions == [] && m.deletedFor == []
    ensures m.replyTo.Some? <==> Present(replyTo)
    ensures m.replyTo.Some? ==> m.replyTo == replyTo
  {
    Message(userId, Key(to), content, [], if Present(replyTo) then replyTo else None, [], [], now)
  }

  /** The payload of a freshly created message. */
  function Fresh(id: string, m: Message): MessagePayload {
    MessagePayload(id, m.sender, m.recipient, m.content, m.replyTo, [], [], m.createdAt)
  }

  /** `private_message`. There is no friendship check. `created` is the id `Message.create`
      assigns, or `None` when the store throws; an id already taken is a duplicate-key error.
      `now` is the creation time. The recipient's socket, if any, receives the message and a
      `message_seen` marker naming the recipient; the sender is acknowledged either way. */
  method OnPrivateMessage(reg: Registry, store: MessageStore, userId: string, to: IdValue,
                          content: Option<string>, replyTo: Option<string>,
                          created: Option<string>, now: int)
    returns (events: seq<Outbound>, ack: Ack)
    requires reg.Valid() && store.Valid()
    modifies store
    ensures store.Valid()
    ensures !PresentId(to) || !Present(if content.Some? then Some(Trim(content.value)) else None) ==>
      ack == Failed("Recipient and message are required") && events == [] && store.records == old(store.records)
    ensures ack.Sent? ==>
      && created.Some? && !HasMessage(old(store.records), created.value)
      && store.records == old(store.records) + [StoredMessage(created.value, NewMessage(userId, to, Trim(content.value), replyTo, now))]
      && ack.message == Fresh(created.value, NewMessage(userId, to, Trim(content.value), replyTo, now))
      && (if Key(to) in reg.sockets && reg.sockets[Key(to)] != "" then
            events == [Emit(Socket(reg.sockets[Key(to)]), PrivateMessage(ack.message)),
                       Emit(Socket(reg.sockets[Key(to)]), MessageSeen(created.value, Key(to)))]
          else events == [])
    ensures ack.Failed? ==> store.records == old(store.records) && events == []
    ensures PresentId(to) && content.Some? && Trim(content.value) != "" ==>
      (ack.Sent? <==> created.Some? && !HasMessage(old(store.records), created.value))
    ensures ack.Failed? && PresentId(to) && content.Some? && Trim(content.value) != "" ==>
      ack == Failed("Failed to send message")
  {
    var text := if content.Some? then Some(Trim(content.value)) else None;
    if !PresentId(to) || !Present(text) {
      return [], Failed("Recipient and message are required");
    }
    if created.None? || HasMessage(store.records, created.value) {
      return [], Failed("Failed to send message");
    }
    var id := created.value;
    var m := NewMessage(userId, to, text.value, replyTo, now);
    store.Insert(id, m);
    var payload := Fresh(id, m);
    var target := reg.GetSocketId(to);
    if Present(target) {
      events := [Emit(Socket(target.value), PrivateMessage(payload)),
                 Emit(Socket(target.value), MessageSeen(id, Key(to)))];
    } else {
      events := [];
    }
    ack := Sent(payload);
  }

  /** `mark_as_seen`: the first mark by a user is saved and reported to the sender's socket;
      a repeated mark, a missing id or an unknown message changes nothing and emits nothing. */
  method OnMarkAsSeen(reg: Registry, store: MessageStore, userId: string, messageId: Option<string>)
    returns (events: seq<Outbound>)
    requires reg.Valid() && store.Valid()
    modifies store
    ensures store.Valid()
    ensures !Present(messageId) || FindMessage(old(store.records), messageId.value).None?
            || userId in FindMessage(old(store.records), messageId.value).value.seenBy ==>
      store.records == old(store.records) && events == []
    ensures Present(messageId) && FindMessage(old(store.records), messageId.value).Some?
            && userId !in FindMessage(old(store.records), messageId.value).value.seenBy ==>
      var m := FindMessage(old(store.records), messageId.value).value;
      && store.records == ReplaceMessage(old(store.records), messageId.value, WithSeen(m, userId))
      && (if m.sender in reg.sockets && reg.sockets[m.sender] != "" then
            events == [Emit(Socket(reg.sockets[m.sender]), MessageSeen(messageId.value, userId))]
          else events == [])
  {
    events := [];
    if !Present(messageId) {
      return;
    }
    var found := FindMessage(store.records, messageId.value);
    if found.Some? && userId !in found.value.seenBy {
      store.Save(messageId.value, WithSeen(found.value, userId));
      var target := reg.GetSocketId(Text(found.value.sender));
      if Present(target) {
        events := [Emit(Socket(target.value), MessageSeen(messageId.value, userId))];
      }
    }
  }

  /** The room `io.to(getSocketId(id))` addresses. */
  function RoomOf(sockets: map<string, string>, id: string): Target {
    if id in sockets then Socket(sockets[id]) else UnresolvedRoom
  }

  /** `add_reaction`: toggle `(userId, emoji)` on the message, save it, and send the whole
      new reaction list to the rooms of the sender and the recipient. */
  method OnAddReaction(reg: Registry, store: MessageStore, userId: string,
                       messageId: Option<string>, emoji: Option<string>)
    returns (events: seq<Outbound>)
    requires reg.Valid() && store.Valid()
    modifies store
    ensures store.Valid()
    ensures !Present(messageId) || !Present(emoji) || FindMessage(old(store.records), messageId.value).None? ==>
      store.records == old(store.records) && events == []
    ensures Present(messageId) && Present(emoji) && FindMessage(old(store.records), messageId.value).Some? ==>
      var m' := WithReactionToggled(FindMessage(old(store.records), messageId.value).value, userId, emoji.value);
      && store.records == ReplaceMessage(old(store.records), messageId.value, m')
      && events == [Emit(RoomOf(reg.sockets, m'.sender), ReactionUpdated(messageId.value, m'.reactions)),
                    Emit(RoomOf(reg.sockets, m'.recipient), ReactionUpdated(messageId.value, m'.reactions))]
  {
    if !Present(messageId) || !Present(emoji) {
      return [];
    }
    var found := FindMessage(store.records, messageId.value);
    if found.None? {
      return [];
    }
    var m' := WithReactionToggled(found.value, userId, emoji.value);
    store.Save(messageId.value, m');
    var senderSocket := reg.GetSocketId(Text(m'.sender));
    var recipientSocket := reg.GetSocketId(Text(m'.recipient));
    var update := ReactionUpdated(messageId.value, m'.reactions);
    events := [Emit(if senderSocket.Some? then Socket(senderSocket.value) else UnresolvedRoom, update),
               Emit(if recipientSocket.Some? then Socket(recipientSocket.value) else UnresolvedRoom, update)];
  }

  /** `disconnect`: the user's entry is deleted, whichever socket it names, and every other
      socket is told the user is offline. */
  method OnDisconnect(reg: Registry, userId: string) returns (events: seq<Outbound>)
    requires reg.Valid()
    modifies reg
    ensures reg.Valid()
    ensures reg.sockets == Apply(old(reg.sockets), Unregister(Text(userId)))
    ensures reg.order == Without(old(reg.order), userId)
    ensures events == [Emit(AllOthers, UserOffline(userId))]
  {
    reg.RemoveOnline(Text(userId));
    events := [Emit(AllOthers, UserOffline(userId))];
  }

  // ---------------------------------------------------------------- scenarios

  /** A user reconnects (socket "s2") before the old socket's ("s1") disconnect is handled:
      the late disconnect deletes the entry of the new connection, so the user has no socket. */
  method StaleDisconnectScenario(a: string) returns (afterwards: Option<string>)
    ensures afterwards == None
  {
    var reg := new Registry();
    var _ := OnConnection(reg, a, "s1");
    var _ := OnConnection(reg, a, "s2");
    assert reg.sockets[a] == "s2";
    var _ := OnDisconnect(reg, a);
    afterwards := reg.GetSocketId(Text(a));
  }

  /** `a` connects on socket "sa", then `b` on socket "sb". */
  method TwoOnline(a: string, b: string) returns (reg: Registry)
    requires a != b
    ensures fresh(reg) && reg.Valid()
    ensures reg.sockets == map[a := "sa", b := "sb"]
  {
    reg := new Registry();
    var _ := OnConnection(reg, a, "sa");
    var _ := OnConnection(reg, b, "sb");
  }

  /** Two online users; `a` sends `b`, who need not be a friend, a text without surrounding
      white space: `b`'s socket receives the message and `a` is acknowledged with it. */
  method SendScenario(a: string, b: string, text: string, id: string, now: int)
    returns (events: seq<Outbound>, ack: Ack)
    requires a != b && b != ""
    requires text != "" && Trim(text) == text
    ensures ack.Sent? && ack.message.content == text && ack.message.recipient == b
    ensures events == [Emit(Socket("sb"), PrivateMessage(ack.message)), Emit(Socket("sb"), MessageSeen(id, b))]
  {
    var reg := TwoOnline(a, b);
    var store := new MessageStore();
    assert Key(Text(b)) == b && PresentId(Text(b));
    assert !HasMessage(store.records, id);
    events, ack := OnPrivateMessage(reg, store, a, Text(b), Some(text), None, Some(id), now);
    assert ack.Sent?;
    assert Key(Text(b)) in reg.sockets && reg.sockets[Key(Text(b))] == "sb";
  }

  /** `b` marks `a`'s message seen twice: one entry in `seenBy`, one notification. */
  method SeenTwiceScenario(a: string, b: string, id: string)
    returns (first: seq<Outbound>, second: seq<Outbound>, seenBy: seq<string>)
    requires a != b && b != "" && a != "" && id != ""
    ensures first == [Emit(Socket("sa"), MessageSeen(id, b))]
    ensures second == []
    ensures seenBy == [b]
  {
    var reg := new Registry();
    var store := new MessageStore();
    var _ := OnConnection(reg, a, "sa");
    assert reg.sockets[a] == "sa";
    TrimUnpadded("hello");
    var _, ack := OnPrivateMessage(reg, store, a, Text(b), Some("hello"), None, Some(id), 0);
    var m := NewMessage(a, Text(b), "hello", None, 0);
    assert store.records == [StoredMessage(id, m)];
    assert store.records[0].id == id;
    assert FindMessage(store.records, id) == Some(m);
    assert HasMessage(store.records, id);
    first := OnMarkAsSeen(reg, store, b, Some(id));
    assert WithSeen(m, b).seenBy == [b];
    assert FindMessage(store.records, id) == Some(WithSeen(m, b));
    second := OnMarkAsSeen(reg, store, b, Some(id));
    seenBy := FindMessage(store.records, id).value.seenBy;
  }
}
