/** The presence registry: a process-wide map from user id to the id of that user's
    socket, every key normalised with `String(...)`. */
module OnlineUsers {
  import opened Wrappers
  import opened Seqs

  /** The JavaScript values the handlers pass as user ids: a string, a database
      ObjectId, or `undefined` when a client payload omits the field. */
  datatype IdValue = Missing | Text(s: string) | ObjectId(hex: string)

  /** `String(v)`: the registry key for an id value. */
  function Key(v: IdValue): string {
    match v
    case Missing => "undefined"
    case Text(s) => s
    case ObjectId(hex) => hex
  }

  /** An ObjectId and its hexadecimal string name the same registry entry. */
  lemma KeyNormalises(hex: string)
    ensures Key(ObjectId(hex)) == Key(Text(hex))
  {
  }

  /** A registry mutation, for reasoning about histories of them. */
  datatype RegistryOp = Register(user: IdValue, socket: string) | Unregister(user: IdValue)

  function OpKey(op: RegistryOp): string { Key(op.user) }

  /** `setOnline` overwrites, `removeOnline` deletes unconditionally. */
  function Apply(m: map<string, string>, op: RegistryOp): map<string, string> {
    match op
    case Register(u, s) => m[Key(u) := s]
    case Unregister(u) => m - {Key(u)}
  }

  /** The registry after a history of mutations, oldest first. */
  function Replay(m: map<string, string>, ops: seq<RegistryOp>): map<string, string>
    decreases |ops|
  {
    if ops == [] then m else Replay(Apply(m, ops[0]), ops[1..])
  }

  /** A mutation changes the entry of its own key and no other. */
  lemma ApplyFrame(m: map<string, string>, op: RegistryOp, k: string)
    requires k != OpKey(op)
    ensures k in Apply(m, op) <==> k in m
    ensures k in m ==> Apply(m, op)[k] == m[k]
  {
  }

  lemma {:induction false} ReplayFrame(m: map<string, string>, ops: seq<RegistryOp>, k: string)
    requires forall i | 0 <= i < |ops| :: OpKey(ops[i]) != k
    ensures k in Replay(m, ops) <==> k in m
    ensures k in m ==> Replay(m, ops)[k] == m[k]
    decreases |ops|
  {
    if ops != [] {
      ReplayFrame(Apply(m, ops[0]), ops[1..], k);
    }
  }

  lemma {:induction false} ReplayConcat(m: map<string, string>, a: seq<RegistryOp>, b: seq<RegistryOp>)
    ensures Replay(m, a + b) == Replay(Replay(m, a), b)
    decreases |a|
  {
    if a != [] {
      assert (a + b)[0] == a[0] && (a + b)[1..] == a[1..] + b;
      ReplayConcat(Apply(m, a[0]), a[1..], b);
    } else {
      assert a + b == b;
    }
  }

  /** Whatever happened before, after the last `setOnline(u, h)` that no later mutation of
      `u` follows, `u` maps to exactly `h`: one socket per user, the newest one. */
  lemma LastRegisterWins(m: map<string, string>, before: seq<RegistryOp>, u: IdValue, h: string, after: seq<RegistryOp>)
    requires forall i | 0 <= i < |after| :: OpKey(after[i]) != Key(u)
    ensures Key(u) in Replay(m, before + [Register(u, h)] + after)
    ensures Replay(m, before + [Register(u, h)] + after)[Key(u)] == h
  {
    ReplayConcat(m, before + [Register(u, h)], after);
    ReplayConcat(m, before, [Register(u, h)]);
    var mid := Replay(m, before + [Register(u, h)]);
    assert mid == Apply(Replay(m, before), Register(u, h));
    ReplayFrame(mid, after, Key(u));
  }

  /** The registry object. `order` is the `Map`'s key insertion order, which `keys()` follows. */
  class Registry {
    var sockets: map<string, string>
    var order: seq<string>

    ghost predicate Valid()
      reads this
    {
      NoDup(order) && (forall k :: k in order <==> k in sockets)
    }

    constructor ()
      ensures Valid() && sockets == map[] && order == []
    {
      sockets := map[];
      order := [];
    }

    /** `setOnline(userId, socketId)`. A key already present keeps its place in the order. */
    method SetOnline(userId: IdValue, socketId: string)
      requires Valid()
      modifies this
      ensures Valid()
      ensures sockets == Apply(old(sockets), Register(userId, socketId))
      ensures order == if Key(userId) in old(sockets) then old(order) else old(order) + [Key(userId)]
    {
      var k := Key(userId);
      if k !in sockets {
        order := order + [k];
      }
      sockets := sockets[k := socketId];
    }

    /** `removeOnline(userId)`: deletes whatever socket the user has, even none. */
    method RemoveOnline(userId: IdValue)
      requires Valid()
      modifies this
      ensures Valid()
      ensures sockets == Apply(old(sockets), Unregister(userId))
      ensures order == Without(old(order), Key(userId))
    {
      var k := Key(userId);
      WithoutNoDup(order, k);
      order := Without(order, k);
      sockets := sockets - {k};
    }

    /** `getSocketId(userId)`. */
    method GetSocketId(userId: IdValue) returns (r: Option<string>)
      requires Valid()
      ensures r.Some? <==> Key(userId) in sockets
      ensures r.Some? ==> r.value == sockets[Key(userId)]
    {
      var k := Key(userId);
      if k in sockets {
        r := Some(sockets[k]);
      } else {
        r := None;
      }
    }

    /** `getOnlineUserIds()`: every registered user exactly once. */
    method GetOnlineUserIds() returns (ids: seq<string>)
      requires Valid()
      ensures NoDup(ids)
      ensures forall k :: k in ids <==> k in sockets
      ensures ids == order
    {
      ids := order;
    }
  }
}
