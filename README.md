# Chat server and client: a Dafny model

This project models the logic of a one-to-one chat application. The server is built on
Express and Socket.IO; the client is a React app. The model covers:

- **Presence registry.** A process-wide map from user id to socket id, with its key order.
  It is a class whose methods update the map in place.
- **Socket server.**
  - The allowed-origin list and the CORS predicate.
  - The token gate.
  - The connection, typing, private-message, mark-as-seen, reaction and disconnect
    handlers. Each is a transition over the registry and the message collection that
    returns the events it emits and the acknowledgement it sends.
- **REST routes.** Each is a guard chain with explicit status codes over collection
  objects whose records the routes replace in place:
  - friend requests (request, accept, reject, pending list, friends list, removal);
  - message history and the three kinds of deletion;
  - the user directory and account deletion;
  - registration and login.
- **Client state updaters.**
  - The reactions to socket events, the message-selection toggle and the send guard.
  - The hidden-user list, bulk deletion and the user-list filter.
  - The "all users" panel.
  - The sign-in form's checks.
  - Relative-time labels.

JavaScript semantics are written out where they matter:
- `String(...)` normalisation of ids, including `undefined` becoming `"undefined"`.
- `trim` over the ECMAScript white-space set.
- `includes`, `split` and `join`, and `[...new Set(...)]`.
- A stable `sort` and `limit`.
- `Math.floor` of non-negative and negative millisecond differences.

The database is a set of collection objects, one `seq` of records each. Ids of created
records arrive as parameters: `None`, or an id already taken, stands for a store failure.
Password hashing, hash comparison and JWT verification are function parameters.

The model follows the code as written, including these behaviours:
- `private_message` does not check friendship. Message history does.
- The friends router (`server/src/routes/friends.js`) is never mounted by
  `server/src/index.js:50-52`. Its handlers are modelled as written.
- Accept and reject do not check that a request is still pending.
- A late `disconnect` deletes the registry entry of a newer connection of the same user
  (`SocketServer.StaleDisconnectScenario`).
- The `message_seen` event emitted by `private_message` goes to the recipient's socket,
  although the comment beside it says it notifies the sender.
- `add_reaction` emits to `io.to(getSocketId(...))` even when the user has no socket.
  That target is `UnresolvedRoom`.
- History turns a reply to a message that no longer exists into `null`. This is a
  `populate` effect.
- Account deletion leaves the user's friend records in place.
- The client emits `send_friend_request`, but no server handler for it exists.
- The "all users" panel reads `_id`, while the directory route returns `id`. On those
  entries `_id` is `undefined` (`AllUsersPanel.ListingEntriesHaveNoId`).

The modules are:
- `Wrappers`, `Seqs`, `Strings` and `EmailPattern`: helpers.
- `Models`: records and collections.
- `OnlineUsers`: the presence registry.
- `SocketServer`: the socket server.
- `FriendsRoutes`, `MessagesRoutes`, `UsersRoutes` and `AuthRoutes`: the REST routes.
- `ChatClient`, `AllUsersPanel`, `AuthFormView` and `FormatTime`: the client.

## Model

| member | source | states |
|---|---|---|
| OnlineUsers.Registry.SetOnline | server/src/utils/onlineUsers.js:3-5 | the user's key now maps to the new socket, whatever it mapped to before; a new key is appended to the key order, an existing one keeps its place; no duplicate key |
| OnlineUsers.Registry.RemoveOnline | server/src/utils/onlineUsers.js:7-9 | the key is deleted whichever socket it named, and deleting an absent key changes nothing; the order loses exactly that key |
| OnlineUsers.Registry.GetSocketId | server/src/utils/onlineUsers.js:11-13 | a socket id is returned iff the normalised key is registered, and it is the registered one |
| OnlineUsers.Registry.GetOnlineUserIds | server/src/utils/onlineUsers.js:15-17 | exactly the registered keys, each once, in insertion order |
| OnlineUsers.KeyNormalises | server/src/utils/onlineUsers.js:4-12 | an ObjectId and its hex string address the same entry, since every operation applies `String(...)` |
| OnlineUsers.ApplyFrame | server/src/utils/onlineUsers.js:3-9 | a registration or removal leaves every other user's entry unchanged |
| OnlineUsers.ReplayFrame | server/src/utils/onlineUsers.js:3-9 | a history of mutations none of which names a key leaves that key's entry unchanged |
| OnlineUsers.ReplayConcat | server/src/utils/onlineUsers.js:3-9 | replaying two histories one after the other is replaying their concatenation |
| OnlineUsers.LastRegisterWins | server/src/utils/onlineUsers.js:3-5 | after the last registration of a user that no later mutation of that user follows, the user maps to exactly that socket |
| SocketServer.TrimAll | server/src/index.js:17 | every entry of the origin list is the trimmed comma-separated piece at the same position |
| SocketServer.AllowedOrigins | server/src/index.js:16-18 | an unset or empty `CLIENT_ORIGIN` gives `['*']`; the list is never empty |
| SocketServer.OriginAllowed | server/src/index.js:24-30 | a request without an origin, or with an empty one, always passes; a `*` entry lets every origin through; otherwise a passing origin is one of the allowed entries |
| SocketServer.OriginAllowedIff | server/src/index.js:16-30 | with `CLIENT_ORIGIN` set to comma-joined entries, an origin passes iff it is empty or some trimmed entry is `*` or the origin itself |
| SocketServer.ParsedEntries | server/src/index.js:17 | splitting comma-joined entries on `,` and trimming yields the trimmed entries |
| SocketServer.TrimAllContains | server/src/index.js:17 | a value is in the trimmed list iff some entry trims to it |
| SocketServer.UnsetAllowsEverything | server/src/index.js:16-18 | without `CLIENT_ORIGIN` every origin passes |
| SocketServer.Authenticate | server/src/index.js:66-79 | a socket is admitted iff its token is present and the verifier accepts it; its user is then the token's subject; every refusal is "Unauthorized" |
| SocketServer.OnConnection | server/src/index.js:81-86 | the user is registered before the snapshot, so the snapshot sent to the caller includes the user; `user_online` goes to all other sockets |
| SocketServer.Forward | server/src/index.js:88-100 | one event to the target's socket when it has a non-empty one, nothing otherwise |
| SocketServer.OnTyping | server/src/index.js:88-93 | `user_typing {from, to}` goes only to the target's registered socket; nothing is emitted when the target is not registered |
| SocketServer.OnStopTyping | server/src/index.js:95-100 | `user_stop_typing {from, to}` goes only to the target's registered socket; nothing is emitted when the target is not registered |
| SocketServer.NewMessage | server/src/index.js:113-116 | the created document has the caller as sender, the normalised recipient, the given content, empty seen/reaction/deleted lists, and a reply link iff one was given |
| SocketServer.OnPrivateMessage | server/src/index.js:102-142 | a missing recipient or blank content fails with "Recipient and message are required" and creates nothing; otherwise exactly one message with the trimmed content is stored and acknowledged with empty `seenBy` and `reactions`, whether or not the recipient is online, and with no friendship check; the recipient's socket gets the message and a `message_seen` naming the recipient; a store failure fails with "Failed to send message" and changes nothing |
| SocketServer.WithSeen | server/src/index.js:150-151 | `seenBy` gains the user unless already present; nothing else in the message changes; no duplicates are introduced |
| SocketServer.WithSeenIdempotent | server/src/index.js:150-151 | marking a message seen twice is marking it once |
| SocketServer.OnMarkAsSeen | server/src/index.js:144-162 | a missing id, an unknown message or a repeated mark changes nothing and emits nothing; a first mark saves the user in `seenBy` and notifies the sender's socket if it has one |
| SocketServer.WithReactionToggled | server/src/index.js:174-184 | the `(user, emoji)` pair is removed if present and added if absent; every other reaction keeps its membership |
| SocketServer.ReactionToggleTwice | server/src/index.js:174-184 | reacting twice with an emoji the user had not used restores the reaction list |
| SocketServer.ReactionToggleElsewhere | server/src/index.js:178-184 | all other reactions keep their entries and their order |
| SocketServer.OnAddReaction | server/src/index.js:164-201 | a missing id or emoji, or an unknown message, changes nothing; otherwise the toggled message is saved and its whole reaction list is sent to the rooms of the sender and the recipient |
| SocketServer.OnDisconnect | server/src/index.js:203-206 | the caller's entry is removed whichever socket it names, and `user_offline` goes to all other sockets |
| SocketServer.StaleDisconnectScenario | server/src/index.js:203-205 | a user reconnects, then the old socket's disconnect arrives: the user ends with no registered socket |
| SocketServer.TwoOnline | server/src/index.js:81-83 | two connections leave each user mapped to their own socket |
| SocketServer.SendScenario | server/src/index.js:102-137 | with no friendship anywhere, a message to an online user reaches that user's socket and is acknowledged with its content |
| SocketServer.SeenTwiceScenario | server/src/index.js:144-158 | marking a message seen twice leaves one `seenBy` entry and sends one notification |
| Models.FindMessage | server/src/routes/messages.js:76-79 | a message is found iff some record has the id, and it is that record's message |
| Models.ReplaceMessage | server/src/routes/messages.js:86 | saving a changed message replaces that record only, keeps ids unique and keeps every other id's message |
| Models.KeepMessages | server/src/routes/messages.js:60-65 | a `deleteMany` keeps exactly the records outside the filter, ids still unique |
| Models.FindFriend | server/src/routes/friends.js:46 | a request is found iff a record has the id |
| Models.PairIndex | server/src/routes/friends.js:18-23 | the first record linking the two users in either direction, or none iff no record links them |
| Models.SetStatus | server/src/routes/friends.js:56-57 | only the record with the id changes, only in its status; one record per pair is kept |
| Models.FindUserByEmail | server/src/routes/auth.js:34 | a user is found iff some record has the address |
| Models.MessageStore.Insert | server/src/index.js:118 | the collection gains exactly the new record |
| Models.MessageStore.Save | server/src/routes/messages.js:86 | the collection becomes the one with that message replaced |
| Models.MessageStore.Keep | server/src/routes/messages.js:60-65 | the collection keeps the records the filter spares; the count removed is returned |
| Models.FriendStore.Insert | server/src/routes/friends.js:29-35 | the collection gains exactly the new request; ids stay unique and there is still at most one record per pair |
| Models.FriendStore.UpdateStatus | server/src/routes/friends.js:56-57 | the collection becomes the one with that status set |
| Models.FriendStore.DeleteAt | server/src/routes/friends.js:136-141 | exactly one record is removed |
| Models.UserStore.Insert | server/src/routes/auth.js:40 | the collection gains exactly the new user; ids and addresses stay unique |
| Models.UserStore.Remove | server/src/routes/users.js:31 | the user with the id is removed and everyone else kept |
| FriendsRoutes.Request | server/src/routes/friends.js:8-41 | a request to oneself, or between users already linked by a record of any status in either direction, gets 400 and creates nothing; otherwise exactly one pending record from the caller to the recipient is created (201), or a store failure gives 500 and changes nothing |
| FriendsRoutes.Decide | server/src/routes/friends.js:44-87 | 404 for an unknown request and 403 unless the caller is its recipient, with no change in either case; otherwise the status is set, whatever it was |
| FriendsRoutes.Accept | server/src/routes/friends.js:44-64 | success iff the request exists and is addressed to the caller; then its status becomes accepted, with no pending check |
| FriendsRoutes.Reject | server/src/routes/friends.js:67-87 | success iff the request exists and is addressed to the caller; then its status becomes rejected, with no pending check |
| FriendsRoutes.DecisionIgnoresCurrentStatus | server/src/routes/friends.js:56-80 | the status is overwritten from any status, and no other record changes |
| FriendsRoutes.PendingRequests | server/src/routes/friends.js:90-104 | exactly the pending records addressed to the caller, each as often as stored, newest first |
| FriendsRoutes.FriendsOf | server/src/routes/friends.js:107-131 | a user is listed iff an accepted record links them to the caller, with the other party taken from each record |
| FriendsRoutes.FriendsOfExcludesCaller | server/src/routes/friends.js:119-124 | with no self-request on record, the caller is never listed as their own friend |
| FriendsRoutes.FriendsOfNoDup | server/src/routes/friends.js:109-124 | with one record per pair, nobody is listed twice |
| FriendsRoutes.Remove | server/src/routes/friends.js:134-148 | at most one record between the two, in either direction, is deleted, after which none links them; the reply is the same either way |
| MessagesRoutes.Visible | server/src/routes/messages.js:24-30 | exactly the messages between the two users, in either direction, that the caller has not deleted for themselves |
| MessagesRoutes.Format | server/src/routes/messages.js:35-47 | every field is copied; the reply link is kept iff the message replied to still exists |
| MessagesRoutes.ConversationHistory | server/src/routes/messages.js:7-54 | 403 iff no accepted friendship links the pair; otherwise min(500, n) entries, oldest first, each the reply form of a visible message and none repeated (a sub-multiset of the conversation); all of them when there are at most 500, and above that a left-out message is never older than a kept entry |
| MessagesRoutes.FormatAll | server/src/routes/messages.js:35 | one reply entry per message, in order |
| MessagesRoutes.OldestEntries | server/src/routes/messages.js:24-47 | the query sorted by `createdAt`, limited to 500 and mapped to reply form never holds a message more often than the conversation does (a sub-multiset) |
| MessagesRoutes.HistorySorted | server/src/routes/messages.js:24-32 | the reply holds min(500, n) entries, n being the number of visible messages, in ascending `createdAt` |
| MessagesRoutes.HistoryOldest | server/src/routes/messages.js:24-32 | above the limit the oldest messages are kept: every entry is no newer than any visible message left out |
| MessagesRoutes.HistoryNoRepeats | server/src/routes/messages.js:31-32 | the kept entries are a sub-multiset of the conversation in reply form: sorting permutes and the limit keeps a prefix, so no message appears twice |
| MessagesRoutes.HistorySound | server/src/routes/messages.js:24-47 | every entry is the reply form of a stored message between the two that the caller has not deleted |
| MessagesRoutes.HistoryComplete | server/src/routes/messages.js:24-32 | at or below the limit no visible message is left out |
| MessagesRoutes.DeleteConversation | server/src/routes/messages.js:56-72 | every message between the two, in both directions, is deleted for both, with no friendship check; the count is reported |
| MessagesRoutes.WithDeletedFor | server/src/routes/messages.js:81-87 | `deletedFor` gains the caller unless present; nothing else changes |
| MessagesRoutes.WithDeletedForIdempotent | server/src/routes/messages.js:84-87 | deleting for oneself twice is deleting once |
| MessagesRoutes.DeleteForMe | server/src/routes/messages.js:74-94 | 404 for an unknown id with no change; otherwise only that message changes, gaining the caller in `deletedFor` |
| MessagesRoutes.ReplaceSame | server/src/routes/messages.js:84-87 | when the caller is already listed, nothing is saved and the collection is unchanged |
| MessagesRoutes.DeletedForMeLeavesHistory | server/src/routes/messages.js:28-87 | a message deleted for oneself is gone from one's own history |
| MessagesRoutes.DeleteForEveryone | server/src/routes/messages.js:96-113 | 404 for an unknown id, 403 unless the caller sent it, with no change in either case; otherwise exactly that message is removed |
| MessagesRoutes.DeletedForEveryoneLeavesHistory | server/src/routes/messages.js:107 | a message deleted for everyone is gone from both parties' history |
| UsersRoutes.ListUsers | server/src/routes/users.js:8-25 | exactly one entry for each stored user other than the caller, with `online` true iff the id is among the online ids |
| UsersRoutes.ListUsersCount | server/src/routes/users.js:10-18 | with unique ids the listing is one shorter than the collection when the caller is stored, and as long otherwise |
| UsersRoutes.ListUsersRoute | server/src/routes/users.js:10-18 | the caller is never listed; `online` is true iff the user is a registered key of the presence registry; every other user is listed |
| UsersRoutes.DeleteAccount | server/src/routes/users.js:27-37 | every message the caller sent or received is deleted, then the caller's user record; nothing else |
| AuthRoutes.CreateToken | server/src/routes/auth.js:9-11 | the token's subject is the user's id |
| AuthRoutes.RegisterCheck | server/src/routes/auth.js:18-32 | the first failing check in the order name (trimmed, at least 2), address (the e-mail pattern), password (untrimmed, at least 6) is reported; the "all required" check can never fire |
| AuthRoutes.Register | server/src/routes/auth.js:13-51 | invalid input gets 400 and a known address 409, neither creating a user; otherwise exactly one user with the hashed password is created (201) and the token's subject is its id; a store failure gives 500 and changes nothing |
| AuthRoutes.Login | server/src/routes/auth.js:53-80 | 400 without both fields; success iff a user has the address and the password matches its hash, with a token for that user's id; every other failure is the same 401 "Invalid credentials" |
| AuthRoutes.LoginDoesNotRevealAccounts | server/src/routes/auth.js:61-69 | an unknown address and a wrong password get identical replies |
| AuthRoutes.RegisteredUserCanLogIn | server/src/routes/auth.js:39-75 | a user stored with the hash of a password logs in with it and receives a token for their id |
| EmailPattern.IsEmail | server/src/routes/auth.js:22 | an accepted address has at least five characters, no white space, exactly one `@`, not first, and at least three characters after it |
| EmailPattern.IsEmailIff | server/src/routes/auth.js:22 | the executable test accepts exactly the strings `^[^\s@]+@[^\s@]+\.[^\s@]+$` matches |
| Strings.TrimIsSlice | server/src/index.js:105 | `trim` yields a contiguous slice whose outside is white space and whose ends are not |
| Strings.TrimEmptyIff | server/src/index.js:105-108 | trimmed content is empty iff the content is all white space |
| Strings.TrimIdempotent | client/src/components/AuthForm.jsx:15-17 | trimming twice is trimming once |
| Strings.IncludesIff | client/src/components/AllUsers.jsx:49-50 | `includes` holds iff the query occurs at some position |
| Strings.SplitJoin | server/src/index.js:17 | splitting comma-joined pieces without commas gives the pieces back |
| Strings.JoinSplit | server/src/index.js:17 | joining the pieces of a split gives the string back |
| Strings.NatToStringValue | client/src/utils/formatTime.js:21 | a number rendered in decimal reads back as itself, with no leading zero |
| Seqs.Dedup | client/src/App.jsx:115 | `[...new Set(s)]` has no duplicates and the same members as `s` |
| Seqs.FirstIndex | client/src/App.jsx:115 | the position of the first occurrence: it holds the element and no earlier position does |
| Seqs.DedupKeepsFirstOrder | client/src/App.jsx:115 | `[...new Set(s)]` lists the elements in the order of their first occurrence in `s` |
| Seqs.SortBy | server/src/routes/messages.js:31 | the result is ordered by the key and is a permutation of the input |
| ChatClient.Received | client/src/App.jsx:79-147 | each server event reaches the listener of the same name with the fields it destructures: `message_seen` carries the message id and the user who saw it, typing events drop `to`, and no server socket event arrives as a friend-request event |
| ChatClient.UserOnlineUpdate | client/src/App.jsx:80-82 | the id is added only if absent, keeping the list duplicate-free and its existing order |
| ChatClient.UserOfflineUpdate | client/src/App.jsx:83-85 | every occurrence of the id is removed and every other id kept |
| ChatClient.OfflineThenOnline | client/src/App.jsx:80-85 | going offline and online again moves the user to the end and leaves everyone else in place |
| ChatClient.TypingUpdate | client/src/App.jsx:86-87 | the sender is marked typing and no other entry changes |
| ChatClient.StopTypingUpdate | client/src/App.jsx:101-110 | the sender's key is deleted and every other key untouched |
| ChatClient.TypingThenStopRestores | client/src/App.jsx:86-110 | a typing notice followed by a stop notice restores the indicators |
| ChatClient.MessageSeenUpdate | client/src/App.jsx:111-119 | the matching message's `seenBy` becomes the duplicate-free union with the user; every other message and field is unchanged |
| ChatClient.ClientSeenMatchesServer | client/src/App.jsx:115 | for a duplicate-free `seenBy`, the client's union equals the list the server saves on `mark_as_seen` |
| ChatClient.ReactionUpdatedUpdate | client/src/App.jsx:120-126 | the message with the id takes the new reaction list wholesale; all others are unchanged |
| ChatClient.IncomingMessageUpdate | client/src/App.jsx:136-139 | a message is appended iff its sender or recipient is the selected user; with no selection nothing is appended |
| ChatClient.ApplyEvent | client/src/App.jsx:78-147 | each event changes only its own part of the state; friend notices are appended; the snapshot replaces the online list |
| ChatClient.OnlineIdsStayDuplicateFree | client/src/App.jsx:78-85 | from a duplicate-free list, and with duplicate-free snapshots, the online list never holds an id twice |
| ChatClient.SnapshotThenEventsDuplicateFree | client/src/App.jsx:78-85 | after the server's snapshot, any run of online/offline events leaves the list duplicate-free |
| ChatClient.ToggleSelected | client/src/App.jsx:451-455 | the id's selection flips and no other id's does |
| ChatClient.ToggleSelectedTwice | client/src/App.jsx:451-455 | toggling an unselected message twice restores the selection |
| ChatClient.SendMessage | client/src/App.jsx:256-273 | nothing is emitted when the trimmed text is empty or no user is selected; otherwise `stop_typing` then the message with the text as typed and a reply link only when replying |
| ChatClient.SentMessagePassesServerCheck | client/src/App.jsx:257 | what the client sends to a user with a non-empty id passes the server's recipient and content check |
| ChatClient.HiddenUsers.Hide | client/src/App.jsx:301-305 | the id is pushed only if absent; the list stays duplicate-free |
| ChatClient.HideSelected | client/src/App.jsx:298-310 | without a selection or confirmation nothing changes; otherwise the user is hidden, removed from the list and deselected, and the messages are cleared |
| ChatClient.DeleteForEveryonePlan | client/src/App.jsx:329-349 | no selection gives nothing to do; no own message among the selection gives the error and no requests; with own messages selected, requests go out iff the dialog is confirmed, one per selected message the user sent and for exactly those; declining does nothing |
| ChatClient.OwnSelected | client/src/App.jsx:331 | exactly the messages that are selected and were sent by the user |
| ChatClient.RemoveMessages | client/src/App.jsx:340 | the deleted messages leave the conversation and every other one stays |
| ChatClient.MergeOnline | client/src/App.jsx:201 | each user's `online` flag is recomputed from the live online list, nothing else changes |
| ChatClient.ChatList | client/src/App.jsx:206-212 | without a query, exactly the users not hidden; with a query, exactly the users whose name or address matches it, hidden or not |
| ChatClient.SearchRevealsHidden | client/src/App.jsx:206-212 | a search reaches hidden users whose name matches |
| ChatClient.RefreshSelected | client/src/App.jsx:215-218 | the selected user is kept iff still in the list, and is then the list's entry with that id |
| AllUsersPanel.FromListing | client/src/components/AllUsers.jsx:30 | a directory entry carries no `_id` |
| AllUsersPanel.FilteredUsers | client/src/components/AllUsers.jsx:46-51 | exactly the users other than the current one whose lowercased name or address contains the lowercased query |
| AllUsersPanel.EmptyQueryKeepsOthers | client/src/components/AllUsers.jsx:49-50 | an empty query keeps everyone but the current user |
| AllUsersPanel.IsFriend | client/src/components/AllUsers.jsx:43 | true iff some friends-list entry has the `_id` |
| AllUsersPanel.IsRequested | client/src/components/AllUsers.jsx:44 | true iff the sent-requests object holds `true` under the id's property name; every entry without an id looks up `"undefined"` |
| AllUsersPanel.OnFriendRequestSent | client/src/components/AllUsers.jsx:16-20 | a success marks the recipient as requested; any other status leaves the map unchanged; other entries never change |
| AllUsersPanel.ButtonFor | client/src/components/AllUsers.jsx:97-149 | "Friends" iff a friend, else "Pending" iff requested, else "Add Friend" |
| AllUsersPanel.RequestSentShowsPending | client/src/components/AllUsers.jsx:16-149 | a successful request turns "Add Friend" into "Pending" |
| AllUsersPanel.SendFriendRequest | client/src/components/AllUsers.jsx:39-41 | exactly one `send_friend_request` carrying the recipient id |
| AllUsersPanel.ListingEntriesHaveNoId | client/src/components/AllUsers.jsx:30-44 | for directory entries the request carries no recipient, and one success marks every such entry as requested |
| AuthFormView.HandleSubmit | client/src/components/AuthForm.jsx:10-35 | the checks run in the order name (register only), address, password and the first failure is reported; submission happens iff all pass, with the trimmed values and the lowercased address |
| AuthFormView.LoginIgnoresName | client/src/components/AuthForm.jsx:19-22 | in login mode the name never changes the outcome |
| AuthFormView.SubmittedValues | client/src/components/AuthForm.jsx:15-34 | submitted values are non-empty, the address matches the pattern, the password has at least 6 characters, and when registering the name trims to at least 2 |
| AuthFormView.SubmittedRegistrationPassesServer | client/src/components/AuthForm.jsx:19-34 | what the registration form submits passes the server's registration checks |
| AuthFormView.SubmittedLoginHasBothFields | client/src/components/AuthForm.jsx:24-34 | what the login form submits gets past the server's missing-field check |
| FormatTime.Bucket | client/src/utils/formatTime.js:9-35 | "Just now" iff under a minute, future times included; minutes 1-59, hours 1-23 and days 1-6 in their ranges as floored quotients; a date otherwise, with the year iff more than 365 days |
| FormatTime.FormatTimestamp | client/src/utils/formatTime.js:6-36 | "Just now" under a minute; floored minutes, hours or days followed by "m ago", "h ago" or "d ago" below an hour, a day or a week; the locale date from a week on, with the year iff at least 366 days have passed |
| FormatTime.RelativeLabelReadsBack | client/src/utils/formatTime.js:20-32 | a relative label is decimal digits followed by its unit, and the digits read back as the floored count |
| FormatTime.FormatMessageTime | client/src/utils/formatTime.js:43-60 | the time alone today, "Yesterday " plus the time the previous day, the date plus the time otherwise; the time is always the suffix |

## Left out

- Socket.IO transport and delivery are not modelled. Emits are returned as lists of events addressed to targets. What `io.to(undefined)` delivers is not modelled.
- Interleaving across `await` points is not modelled. Each handler is one atomic transition.
- JWT signing and verification, bcrypt hashing and comparison, and the seven-day token expiry are function parameters.
- MongoDB queries are not modelled, beyond the filters, sort and limit the routes apply. `populate` is modelled only for the history reply link. Populated user documents are represented by ids.
- `server/src/models/Friend.js`, `server/src/models/User.js` and `server/src/middleware/auth.js` are not part of this model.
  - Friend records are assumed to carry `createdAt`.
  - The user collection is assumed to keep ids and addresses unique.
- `GET /api/auth/me` (`server/src/routes/auth.js:82-94`) and `/health` are not modelled.
- The `500` replies of the routes are not modelled where they come from exceptions other than a failed insert.
- Request fields that are not strings are not modelled. For example, a `private_message` whose content is not a string makes `trim` throw and ends in "Failed to send message". Each field is an optional string.
- A message or request id that is not a valid ObjectId makes `findById` throw. The routes then answer 500 instead of 404. The model treats every id as well formed.
- An unparsable timestamp is not modelled. In JavaScript it makes `formatTimestamp` fall through to the date branch.
- SocketServer.OnMarkAsSeen: a failing save is not modelled. The handler only logs such a failure.
- SocketServer.OnAddReaction: a failing save is not modelled. The handler only logs such a failure.
- SocketServer.OnTyping: a `typing` event without a payload is not modelled. `data.to` then throws outside any `try` (`server/src/index.js:89`).
- SocketServer.OnStopTyping: a `stop_typing` event without a payload is not modelled, for the same reason (`server/src/index.js:96`).
- Whether the acknowledgement callback was passed (`ack?.`) is not modelled. Every outcome is returned.
- FriendsRoutes.Request: a missing `recipientId` is not modelled. The recipient is taken as a string.
- String lengths are counted in code points, not UTF-16 units. Names and passwords with characters outside the Basic Multilingual Plane measure shorter than in JavaScript.
- `toLowerCase` is modelled for ASCII letters only.
- Locale rendering is not modelled. `toLocaleDateString`, `toLocaleTimeString` and `toDateString` are opaque strings and calendar-day numbers.
- Client timers are not modelled: the 3-second typing auto-clear and the delayed `mark_as_seen`.
- `localStorage` persistence, React effects and rendering are not modelled. `client/src/App.jsx:195` does not parse (`useEffect(() {`), so only the filter body of `loadUsers` is modelled.
- Connection status and error strings in the client state are not modelled.
- `handleDeleteMessagesForMe` is modelled only through `ChatClient.RemoveMessages`.
- `client/src/api.js`, `ChatWindow.jsx`, `UserList.jsx` and `FriendRequests.jsx` are not part of this model. They hold I/O and presentation only.
- The order of equal `createdAt` values is not modelled. The model sorts stably; MongoDB does not promise an order for ties.
