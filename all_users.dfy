/** The "all users" panel: the search filter, the friend and request markers, the button
    each user gets, and the friend-request emit. Entries are read through their `_id`
    field, which is `undefined` (`Missing`) on entries that do not carry one. */
module AllUsersPanel {
  import opened Seqs
  import opened Strings
  import opened OnlineUsers
  import opened UsersRoutes
  import opened ChatClient

  /** A user entry as the panel reads it. */
  datatype PanelUser = PanelUser(_id: IdValue, name: string, email: string)

  /** An entry of the `GET /api/users` reply as the panel sees it: that reply names the id
      `id`, so `_id` is absent. */
  function FromListing(l: ListedUser): (u: PanelUser)
    ensures u._id == Missing && u.name == l.name && u.email == l.email
  {
    PanelUser(Missing, l.name, l.email)
  }

  /** The lowercased name or address contains the lowercased query. */
  predicate SearchHit(u: PanelUser, query: string) {
    Includes(Lower(u.name), Lower(query)) || Includes(Lower(u.email), Lower(query))
  }

  /** `filteredUsers`: everyone but the current user whose name or address matches. */
  function FilteredUsers(all: seq<PanelUser>, currentUserId: string, query: string): (r: seq<PanelUser>)
    ensures |r| <= |all|
    ensures forall u :: u in r <==> u in all && u._id != Text(currentUserId) && SearchHit(u, query)
  {
    Filter((u: PanelUser) => u._id != Text(currentUserId) && SearchHit(u, query), all)
  }

  /** The empty query matches everyone, so only the current user is filtered out. */
  lemma EmptyQueryKeepsOthers(all: seq<PanelUser>, currentUserId: string)
    ensures forall u :: u in FilteredUsers(all, currentUserId, "") <==> u in all && u._id != Text(currentUserId)
  {
    forall u | u in all ensures SearchHit(u, "") {
      assert OccursAt(Lower(""), Lower(u.name), 0);
      IncludesIff(Lower(u.name), Lower(""));
    }
  }

  /** `isFriend`: some friends-list entry has this `_id`. */
  function IsFriend(friends: seq<PanelUser>, id: IdValue): (b: bool)
    ensures b <==> exists k | 0 <= k < |friends| :: friends[k]._id == id
  {
    FirstWhere(friends, (f: PanelUser) => f._id == id) < |friends|
  }

  /** `isRequested`: the sent-requests object has a true entry under the id's property name. */
  function IsRequested(sent: map<string, bool>, id: IdValue): (b: bool)
    ensures b <==> Key(id) in sent && sent[Key(id)]
    ensures id.Missing? ==> (b <==> "undefined" in sent && sent["undefined"])
  {
    Key(id) in sent && sent[Key(id)]
  }

  /** `friend_request_sent`: a success marks the recipient as requested; any other status
      changes nothing. */
  function OnFriendRequestSent(sent: map<string, bool>, status: string, recipientId: IdValue): (r: map<string, bool>)
    ensures status == "success" ==> IsRequested(r, recipientId) && r.Keys == sent.Keys + {Key(recipientId)}
    ensures status != "success" ==> r == sent
    ensures forall k | k in sent && k != Key(recipientId) :: k in r && r[k] == sent[k]
  {
    if status == "success" then sent[Key(recipientId) := true] else sent
  }

  datatype Button = FriendsButton | PendingButton | AddFriendButton

  /** The button a listed user gets: "Friends", else "Pending...", else "Add Friend". */
  function ButtonFor(friends: seq<PanelUser>, sent: map<string, bool>, id: IdValue): (b: Button)
    ensures b == FriendsButton <==> IsFriend(friends, id)
    ensures b == PendingButton <==> !IsFriend(friends, id) && IsRequested(sent, id)
    ensures b == AddFriendButton <==> !IsFriend(friends, id) && !IsRequested(sent, id)
  {
    if IsFriend(friends, id) then FriendsButton
    else if IsRequested(sent, id) then PendingButton
    else AddFriendButton
  }

  /** A successful request turns an "Add Friend" button into "Pending..." (a friend keeps
      "Friends"). */
  lemma RequestSentShowsPending(friends: seq<PanelUser>, sent: map<string, bool>, id: IdValue)
    requires ButtonFor(friends, sent, id) == AddFriendButton
    ensures ButtonFor(friends, OnFriendRequestSent(sent, "success", id), id) == PendingButton
  {
  }

  /** `sendFriendRequest`: one `send_friend_request` carrying the recipient's id. */
  function SendFriendRequest(recipientId: IdValue): (r: seq<ClientEmit>)
    ensures |r| == 1 && r[0].EmitFriendRequest? && r[0].recipientId == recipientId
  {
    [EmitFriendRequest(recipientId)]
  }

  /** For entries loaded from `GET /api/users` the button sends no recipient id at all, and
      one success marks every such entry as requested, since they all share the property
      name "undefined". */
  lemma ListingEntriesHaveNoId(l: ListedUser, other: ListedUser, sent: map<string, bool>)
    ensures SendFriendRequest(FromListing(l)._id) == [EmitFriendRequest(Missing)]
    ensures IsRequested(OnFriendRequestSent(sent, "success", FromListing(l)._id), FromListing(other)._id)
  {
  }
}
