/** The user routes: the user directory with online flags, and account deletion. */
module UsersRoutes {
  import opened Seqs
  import opened Models
  import opened OnlineUsers

  /** One entry of the directory reply. */
  datatype ListedUser = ListedUser(id: string, name: string, email: string, online: bool)

  function Listing(u: User, onlineIds: seq<string>): ListedUser {
    ListedUser(u.id, u.name, u.email, u.id in onlineIds)
  }

  /** `GET /`: every stored user except the caller, in stored order, flagged online exactly
      when the id is among `onlineIds`. */
  function ListUsers(us: seq<User>, caller: string, onlineIds: seq<string>): (r: seq<ListedUser>)
    ensures |r| <= |us|
    ensures forall l :: l in r <==> exists u | u in us :: u.id != caller && l == Listing(u, onlineIds)
  {
    if us == [] then []
    else
      assert forall u :: u in us <==> u == us[0] || u in us[1..];
      (if us[0].id == caller then [] else [Listing(us[0], onlineIds)]) + ListUsers(us[1..], caller, onlineIds)
  }

  /** With unique ids, the directory names each other user once and leaves out exactly the
      caller: one entry fewer than there are users when the caller is stored. */
  lemma {:induction false} ListUsersCount(us: seq<User>, caller: string, onlineIds: seq<string>)
    requires UniqueBy(us, UserId)
    ensures |ListUsers(us, caller, onlineIds)| == if exists k | 0 <= k < |us| :: us[k].id == caller then |us| - 1 else |us|
  {
    if us != [] {
      var tail := us[1..];
      assert UniqueBy(tail, UserId) by {
        forall i, j | 0 <= i < j < |tail| ensures UserId(tail[i]) != UserId(tail[j]) {
          assert tail[i] == us[i + 1] && tail[j] == us[j + 1];
        }
      }
      ListUsersCount(tail, caller, onlineIds);
      if us[0].id == caller {
        forall k | 0 <= k < |tail| ensures tail[k].id != caller {
          assert UserId(us[0]) != UserId(us[k + 1]);
        }
      } else {
        assert (exists k | 0 <= k < |us| :: us[k].id == caller) <==> (exists k | 0 <= k < |tail| :: tail[k].id == caller) by {
          if k :| 0 <= k < |us| && us[k].id == caller {
            assert tail[k - 1] == us[k];
          }
          if k :| 0 <= k < |tail| && tail[k].id == caller {
            assert us[k + 1] == tail[k];
          }
        }
      }
    }
  }

  /** The route as the server runs it: the online flags come from the presence registry. */
  method ListUsersRoute(users: UserStore, reg: Registry, caller: string) returns (listed: seq<ListedUser>)
    requires users.Valid() && reg.Valid()
    ensures forall l | l in listed :: l.id != caller && (l.online <==> l.id in reg.sockets)
    ensures forall u | u in users.records && u.id != caller ::
      ListedUser(u.id, u.name, u.email, u.id in reg.sockets) in listed
    ensures forall l | l in listed :: exists u | u in users.records :: l.id == u.id && l.name == u.name && l.email == u.email
  {
    var onlineIds := reg.GetOnlineUserIds();
    listed := ListUsers(users.records, caller, onlineIds);
    forall u | u in users.records && u.id != caller
      ensures ListedUser(u.id, u.name, u.email, u.id in reg.sockets) in listed
    {
      assert Listing(u, onlineIds) in listed;
    }
  }

  /** `DELETE /me`: every message the caller sent or received is deleted, then the caller's
      user record. Friend records are left as they are. */
  method DeleteAccount(users: UserStore, messages: MessageStore, caller: string) returns (res: Response)
    requires users.Valid() && messages.Valid()
    modifies users, messages
    ensures users.Valid() && messages.Valid()
    ensures res == Response(200, "Account deleted successfully")
    ensures forall v :: v in messages.records <==>
      v in old(messages.records) && v.msg.sender != caller && v.msg.recipient != caller
    ensures forall u :: u in users.records <==> u in old(users.records) && u.id != caller
  {
    var _ := messages.Keep((v: StoredMessage) => v.msg.sender != caller && v.msg.recipient != caller);
    users.Remove(caller);
    res := Response(200, "Account deleted successfully");
  }
}
