/** The presence registry and direct-message fan-out of the real-time hub (socket.js).

    The registry `userSocketMap` is a JavaScript `Map` from user id to socket id. A JS
    `Map` iterates in insertion order, `set` on an existing key overwrites the value in
    place and `set` on a new key appends, so the registry is modelled as the ordered
    sequence of its entries, with distinct users; `AsMap` is its view as a finite map.
    One socket per user: a reconnect overwrites the earlier socket id. */
module Presence {
  import opened Common
  import opened Schemas

  /** socket.io socket ids are never empty, so a bound socket id is always truthy. */
  type SocketId = s: string | s != [] witness "s"

  datatype Binding = Binding(user: UserId, socket: SocketId)

  /** A JS `Map` never holds the same key twice. */
  predicate DistinctUsers(es: seq<Binding>)
  {
    forall i, j :: 0 <= i < j < |es| ==> es[i].user != es[j].user
  }

  /** The registry invariant the hub relies on: a socket id is bound to at most one user. */
  predicate OneUserPerSocket(es: seq<Binding>)
  {
    forall i, j :: 0 <= i < j < |es| ==> es[i].socket != es[j].socket
  }

  predicate SocketBound(es: seq<Binding>, s: SocketId)
  {
    exists i :: 0 <= i < |es| && es[i].socket == s
  }

  /** The position of the entry for user `u`, or -1 when there is none. */
  function IndexOfUser(es: seq<Binding>, u: UserId): (i: int)
    ensures -1 <= i < |es|
    ensures i >= 0 ==> es[i].user == u && forall k :: 0 <= k < i ==> es[k].user != u
    ensures i == -1 ==> forall k :: 0 <= k < |es| ==> es[k].user != u
  {
    if es == [] then -1
    else if es[0].user == u then 0
    else
      var j := IndexOfUser(es[1..], u);
      if j == -1 then -1 else j + 1
  }

  /** The position of the first entry, in insertion order, bound to socket `s`, or -1. */
  function IndexOfSocket(es: seq<Binding>, s: SocketId): (i: int)
    ensures -1 <= i < |es|
    ensures i >= 0 ==> es[i].socket == s && forall k :: 0 <= k < i ==> es[k].socket != s
    ensures i == -1 ==> !SocketBound(es, s)
  {
    if es == [] then -1
    else if es[0].socket == s then 0
    else
      var j := IndexOfSocket(es[1..], s);
      assert j == -1 ==> forall k :: 1 <= k < |es| ==> es[1..][k - 1] == es[k];
      if j == -1 then -1 else j + 1
  }

  /** The registry seen as a map from user to socket (a JS `Map` never holds a key twice;
      the earliest entry would win if it did). */
  function AsMap(es: seq<Binding>): map<UserId, SocketId>
  {
    if es == [] then map[] else AsMap(es[1..])[es[0].user := es[0].socket]
  }

  /** `AsMap` answers a lookup with the entry at the user's position. */
  lemma {:induction false} AsMapLookup(es: seq<Binding>, u: UserId)
    ensures u in AsMap(es) <==> IndexOfUser(es, u) >= 0
    ensures u in AsMap(es) ==> AsMap(es)[u] == es[IndexOfUser(es, u)].socket
  {
    if es != [] && es[0].user != u {
      AsMapLookup(es[1..], u);
    }
  }

  lemma {:induction false} AsMapUpdateFirst(es: seq<Binding>, i: nat, u: UserId, s: SocketId)
    requires i < |es| && es[i].user == u && forall k :: 0 <= k < i ==> es[k].user != u
    ensures AsMap(es[i := Binding(u, s)]) == AsMap(es)[u := s]
  {
    var b := Binding(u, s);
    if i == 0 {
      assert es[0 := b] == [b] + es[1..];
    } else {
      assert es[i := b] == [es[0]] + es[1..][i - 1 := b];
      AsMapUpdateFirst(es[1..], i - 1, u, s);
      assert AsMap(es[1..])[u := s][es[0].user := es[0].socket] == AsMap(es[1..])[es[0].user := es[0].socket][u := s];
    }
  }

  lemma {:induction false} AsMapAppendNew(es: seq<Binding>, u: UserId, s: SocketId)
    requires forall k :: 0 <= k < |es| ==> es[k].user != u
    ensures AsMap(es + [Binding(u, s)]) == AsMap(es)[u := s]
  {
    var b := Binding(u, s);
    if es != [] {
      assert es + [b] == [es[0]] + (es[1..] + [b]);
      AsMapAppendNew(es[1..], u, s);
      assert AsMap(es[1..])[u := s][es[0].user := es[0].socket] == AsMap(es[1..])[es[0].user := es[0].socket][u := s];
    }
  }

  lemma {:induction false} AsMapRemoveAt(es: seq<Binding>, i: nat)
    requires DistinctUsers(es) && i < |es|
    ensures AsMap(es[..i] + es[i + 1..]) == AsMap(es) - {es[i].user}
  {
    if i == 0 {
      assert es[..0] + es[1..] == es[1..];
      AsMapLookup(es[1..], es[0].user);
      assert AsMap(es[1..]) == AsMap(es[1..])[es[0].user := es[0].socket] - {es[0].user};
    } else {
      var tail := es[1..];
      assert es[..i] + es[i + 1..] == [es[0]] + (tail[..i - 1] + tail[i..]);
      AsMapRemoveAt(tail, i - 1);
      assert tail[i - 1] == es[i];
      assert (AsMap(tail) - {es[i].user})[es[0].user := es[0].socket] == AsMap(tail)[es[0].user := es[0].socket] - {es[i].user};
    }
  }

  /** `userSocketMap.set(u, s)`: overwrite the value of an existing key where it stands,
      or append a new entry; either way the map view binds `u` to `s` and nothing else changes. */
  function MapSet(es: seq<Binding>, u: UserId, s: SocketId): (r: seq<Binding>)
    ensures AsMap(r) == AsMap(es)[u := s]
    ensures |r| == if u in AsMap(es) then |es| else |es| + 1
    ensures DistinctUsers(es) ==> DistinctUsers(r)
  {
    var i := IndexOfUser(es, u);
    AsMapLookup(es, u);
    if i >= 0 then
      AsMapUpdateFirst(es, i, u, s);
      es[i := Binding(u, s)]
    else
      AsMapAppendNew(es, u, s);
      es + [Binding(u, s)]
  }

  /** `es` loses exactly the entry at `i`, which is the first one bound to `s`. */
  predicate RemovedFirstAt(es: seq<Binding>, s: SocketId, r: seq<Binding>, i: int)
  {
    && 0 <= i < |es|
    && es[i].socket == s
    && (forall k :: 0 <= k < i ==> es[k].socket != s)
    && r == es[..i] + es[i + 1..]
  }

  /** The disconnect handler's loop: walk the entries in insertion order and delete the
      first one whose socket id is `s`; leave the registry alone when there is none. */
  function RemoveFirstBySocket(es: seq<Binding>, s: SocketId): (r: seq<Binding>)
    ensures !SocketBound(es, s) ==> r == es
    ensures SocketBound(es, s) ==> exists i :: RemovedFirstAt(es, s, r, i)
  {
    var i := IndexOfSocket(es, s);
    if i == -1 then es
    else
      assert RemovedFirstAt(es, s, es[..i] + es[i + 1..], i);
      es[..i] + es[i + 1..]
  }

  lemma RemovedFirstAtKeepsOthers(es: seq<Binding>, s: SocketId, r: seq<Binding>, i: int)
    requires RemovedFirstAt(es, s, r, i)
    ensures |r| == |es| - 1
    ensures forall k :: 0 <= k < |r| ==> r[k] == es[if k < i then k else k + 1]
  {
  }

  /** Pairwise-distinct properties of entries survive a disconnect. */
  lemma RemovePreservesInvariants(es: seq<Binding>, s: SocketId)
    ensures DistinctUsers(es) ==> DistinctUsers(RemoveFirstBySocket(es, s))
    ensures OneUserPerSocket(es) ==> OneUserPerSocket(RemoveFirstBySocket(es, s))
  {
    var r := RemoveFirstBySocket(es, s);
    if SocketBound(es, s) {
      var i :| RemovedFirstAt(es, s, r, i);
      RemovedFirstAtKeepsOthers(es, s, r, i);
    }
  }

  /** Under the registry invariant, the socket that disconnected is bound to nobody
      afterwards, so a second disconnect of it is a no-op. */
  lemma DisconnectIdempotent(es: seq<Binding>, s: SocketId)
    requires OneUserPerSocket(es)
    ensures !SocketBound(RemoveFirstBySocket(es, s), s)
    ensures RemoveFirstBySocket(RemoveFirstBySocket(es, s), s) == RemoveFirstBySocket(es, s)
  {
    var r := RemoveFirstBySocket(es, s);
    if SocketBound(es, s) {
      var i :| RemovedFirstAt(es, s, r, i);
      RemovedFirstAtKeepsOthers(es, s, r, i);
      forall k | 0 <= k < |r| ensures r[k].socket != s {
        assert r[k] == es[if k < i then k else k + 1];
      }
    }
  }

  /** The map view of a disconnect: exactly the users bound to `s` are dropped (under the
      invariant, at most one), and every other user keeps their socket. */
  lemma DisconnectAsMap(es: seq<Binding>, s: SocketId)
    requires DistinctUsers(es) && OneUserPerSocket(es)
    ensures AsMap(RemoveFirstBySocket(es, s)) == map u | u in AsMap(es) && AsMap(es)[u] != s :: AsMap(es)[u]
  {
    var m := AsMap(es);
    var kept := map u | u in m && m[u] != s :: m[u];
    var i := IndexOfSocket(es, s);
    forall u | u in m ensures m[u] == s <==> (i >= 0 && u == es[i].user) {
      AsMapLookup(es, u);
      if i >= 0 && u == es[i].user {
        assert IndexOfUser(es, u) == i;
      }
    }
    if i >= 0 {
      AsMapRemoveAt(es, i);
      assert AsMap(RemoveFirstBySocket(es, s)) == m - {es[i].user};
      assert m - {es[i].user} == kept;
    } else {
      assert m == kept;
    }
  }

  /** Binding a fresh socket id keeps the registry invariant. */
  lemma ConnectFreshPreservesInvariant(es: seq<Binding>, u: UserId, s: SocketId)
    requires DistinctUsers(es) && OneUserPerSocket(es)
    requires !SocketBound(es, s)
    ensures DistinctUsers(MapSet(es, u, s)) && OneUserPerSocket(MapSet(es, u, s))
  {
    var i := IndexOfUser(es, u);
    var r := MapSet(es, u, s);
    if i >= 0 {
      assert r == es[i := Binding(u, s)];
    } else {
      assert r == es + [Binding(u, s)];
    }
  }

  /** A stale socket that disconnects after its user reconnected on a new socket
      leaves the newer binding in place. */
  lemma StaleDisconnectKeepsReconnect(es: seq<Binding>, u: UserId, stale: SocketId, current: SocketId)
    requires DistinctUsers(es)
    requires stale != current
    ensures var r := RemoveFirstBySocket(MapSet(es, u, current), stale);
      u in AsMap(r) && AsMap(r)[u] == current
  {
    var m := MapSet(es, u, current);
    var i := IndexOfSocket(m, stale);
    AsMapLookup(m, u);
    var j := IndexOfUser(m, u);
    assert m[j].socket == current;
    if i >= 0 {
      assert m[i].user != u by { assert i != j; }
      AsMapRemoveAt(m, i);
      assert RemoveFirstBySocket(m, stale) == m[..i] + m[i + 1..];
    }
  }

  /** One `receiveMessage` emission: the message data sent to one socket. */
  datatype Emission = Emission(socket: SocketId, event: string, data: Option<Message>)

  const ReceiveMessage := "receiveMessage"

  /** The outcome of persisting a message: `Message.create` or the populated `findById`
      re-read threw (`Threw`), or the re-read resolved to the document or to null. */
  datatype StoreStep = Threw | Reread(data: Option<Message>)

  /** The emissions of `sendMessage`, given the two socket ids read from the registry
      before the message was persisted: the recipient first, then the sender, each only
      if bound, and nothing at all if persisting threw. */
  function Deliveries(senderSocket: Option<SocketId>, recipientSocket: Option<SocketId>, step: StoreStep): (r: seq<Emission>)
    ensures step.Threw? ==> r == []
    ensures step.Reread? ==> |r| == (if recipientSocket.Some? then 1 else 0) + (if senderSocket.Some? then 1 else 0)
    ensures forall e :: e in r ==> e.event == ReceiveMessage && step.Reread? && e.data == step.data
    ensures forall e :: e in r ==> Some(e.socket) == recipientSocket || Some(e.socket) == senderSocket
    ensures step.Reread? && recipientSocket.Some? ==> r[0].socket == recipientSocket.value
    ensures step.Reread? && senderSocket.Some? ==> r[|r| - 1].socket == senderSocket.value
  {
    match step
    case Threw => []
    case Reread(data) =>
      (if recipientSocket.Some? then [Emission(recipientSocket.value, ReceiveMessage, data)] else [])
      + (if senderSocket.Some? then [Emission(senderSocket.value, ReceiveMessage, data)] else [])
  }

  /** The registry `userSocketMap` of one running hub. */
  class SocketRegistry {
    var entries: seq<Binding>

    ghost predicate Valid()
      reads this
    {
      DistinctUsers(entries)
    }

    function Sockets(): map<UserId, SocketId>
      reads this
    {
      AsMap(entries)
    }

    /** `userSocketMap.get(u)`. */
    function SocketOf(u: UserId): (r: Option<SocketId>)
      reads this
      ensures r.Some? <==> u in Sockets()
      ensures r.Some? ==> r.value == Sockets()[u]
    {
      if u in AsMap(entries) then Some(AsMap(entries)[u]) else None
    }

    constructor ()
      ensures Valid() && entries == [] && Sockets() == map[]
    {
      entries := [];
    }

    /** The connection handler: a truthy `userId` is bound to the new socket, replacing
        any earlier socket of that user; without one the registry is unchanged. */
    method Connect(userId: Option<string>, socketId: SocketId)
      requires Valid()
      modifies this
      ensures Valid()
      ensures Truthy(userId) ==> entries == MapSet(old(entries), userId.value, socketId)
      ensures Truthy(userId) ==> Sockets() == old(Sockets())[userId.value := socketId]
      ensures !Truthy(userId) ==> entries == old(entries)
      ensures OneUserPerSocket(old(entries)) && !SocketBound(old(entries), socketId) ==> OneUserPerSocket(entries)
    {
      if Truthy(userId) {
        if OneUserPerSocket(entries) && !SocketBound(entries, socketId) {
          ConnectFreshPreservesInvariant(entries, userId.value, socketId);
        }
        entries := MapSet(entries, userId.value, socketId);
      }
    }

    /** The disconnect handler: scan the entries in insertion order and delete the first
        one bound to the disconnecting socket. */
    method Disconnect(socketId: SocketId)
      requires Valid()
      modifies this
      ensures Valid()
      ensures entries == RemoveFirstBySocket(old(entries), socketId)
      ensures !SocketBound(old(entries), socketId) ==> entries == old(entries)
      ensures OneUserPerSocket(old(entries)) ==> OneUserPerSocket(entries) && !SocketBound(entries, socketId)
      ensures OneUserPerSocket(old(entries)) ==>
        Sockets() == map u | u in old(Sockets()) && old(Sockets())[u] != socketId :: old(Sockets())[u]
    {
      var i := 0;
      while i < |entries|
        invariant 0 <= i <= |entries|
        invariant entries == old(entries)
        invariant forall k :: 0 <= k < i ==> entries[k].socket != socketId
      {
        if entries[i].socket == socketId {
          assert IndexOfSocket(entries, socketId) == i;
          entries := entries[..i] + entries[i + 1..];
          break;
        }
        i := i + 1;
      }
      RemovePreservesInvariants(old(entries), socketId);
      if OneUserPerSocket(old(entries)) {
        DisconnectIdempotent(old(entries), socketId);
        DisconnectAsMap(old(entries), socketId);
      }
    }

    /** `sendMessage`: read the sender's and the recipient's socket ids, persist the
        message (the outcome `step` of that asynchronous store call is a parameter),
        then emit the stored message to the recipient and then to the sender. */
    method SendMessage(message: Draft, step: StoreStep) returns (emits: seq<Emission>)
      ensures emits == Deliveries(SocketOf(message.sender),
                                  if message.recipient.Some? then SocketOf(message.recipient.value) else None,
                                  step)
      ensures |emits| <= 2
      ensures forall e :: e in emits ==> e.socket in Sockets().Values
    {
      var senderSocketId := SocketOf(message.sender);
      var recipientSocketId := if message.recipient.Some? then SocketOf(message.recipient.value) else None;
      emits := [];
      match step {
        case Threw =>
        case Reread(messageData) =>
          if recipientSocketId.Some? {
            emits := emits + [Emission(recipientSocketId.value, ReceiveMessage, messageData)];
          }
          if senderSocketId.Some? {
            emits := emits + [Emission(senderSocketId.value, ReceiveMessage, messageData)];
          }
      }
    }
  }

  /** A message an online user addresses to themself reaches their one socket twice. */
  lemma SelfMessageEmittedTwice(es: seq<Binding>, u: UserId, data: Option<Message>)
    requires u in AsMap(es)
    ensures var s := Some(AsMap(es)[u]);
      Deliveries(s, s, Reread(data)) == [Emission(AsMap(es)[u], ReceiveMessage, data), Emission(AsMap(es)[u], ReceiveMessage, data)]
  {
  }

  /** The socket ids are read before the store call: if the recipient's socket
      disconnects while the message is being persisted, the stored message is still
      emitted first to that (now unbound) socket id, which the transport then drops. */
  lemma SnapshotOutlivesDisconnect(es: seq<Binding>, sender: UserId, recipient: UserId, data: Option<Message>)
    requires DistinctUsers(es) && OneUserPerSocket(es)
    requires recipient in AsMap(es)
    ensures var s := AsMap(es)[recipient];
      var senderSocket := if sender in AsMap(es) then Some(AsMap(es)[sender]) else None;
      && !SocketBound(RemoveFirstBySocket(es, s), s)
      && Deliveries(senderSocket, Some(s), Reread(data))[0] == Emission(s, ReceiveMessage, data)
  {
    DisconnectIdempotent(es, AsMap(es)[recipient]);
  }

  /** If the recipient reconnects on a new socket while the message is being persisted,
      the stored message goes to the recipient's old socket id and never to the socket the
      recipient is bound to afterwards. */
  lemma ReconnectDuringStoreMissesNewSocket(es: seq<Binding>, sender: UserId, recipient: UserId, current: SocketId, data: Option<Message>)
    requires DistinctUsers(es) && OneUserPerSocket(es)
    requires recipient in AsMap(es) && !SocketBound(es, current)
    ensures var stale := AsMap(es)[recipient];
      var after := MapSet(RemoveFirstBySocket(es, stale), recipient, current);
      var senderSocket := if sender in AsMap(es) then Some(AsMap(es)[sender]) else None;
      var out := Deliveries(senderSocket, Some(stale), Reread(data));
      && AsMap(after)[recipient] == current
      && out[0] == Emission(stale, ReceiveMessage, data)
      && forall e :: e in out ==> e.socket != current
  {
    AsMapLookup(es, recipient);
    AsMapLookup(es, sender);
  }
}
