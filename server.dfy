/**
 * The fan-out server of src/main.rs: the validation of an inbound position
 * frame, the `State` actor's tables and queues, its handlers, and the
 * builders of the outbound binary messages.
 */
module Server {
  import opened Wrappers
  import opened Wire

  /** `BinaryType::Update` (type 1, "add", is never written: it means the same). */
  const UpdateType: Word := 2
  /** `BinaryType::Remove`. */
  const RemoveType: Word := 3
  /** `u32::MAX`, the largest id `latest_id` can reach. */
  const MaxId: Word := 0xFFFF_FFFF

  // ---- Position::get ----

  datatype PositionError = BadMessageSize | OutOfBoundsFloats

  /**
   * `Position::get`: a frame is exactly 8 bytes, x the little-endian word at
   * bytes 0..4 and y the one at bytes 4..8, both in 0.0..=1.0.
   */
  function PositionGet(b: seq<Byte>): (r: Result<Position, PositionError>)
    ensures |b| != 8 ==> r == Err(BadMessageSize)
    ensures |b| == 8 ==>
      var x, y := ReadWord(b, 0).value, ReadWord(b, 1).value;
      && (r.Ok? <==> InUnitRange(x) && InUnitRange(y))
      && (r.Ok? ==> r.value == Position(x, y))
      && (r.Err? ==> r.error == OutOfBoundsFloats)
  {
    if |b| == 8 then
      var x := LeWord(b[0], b[1], b[2], b[3]);
      var y := LeWord(b[4], b[5], b[6], b[7]);
      if InUnitRange(x) && InUnitRange(y) then Ok(Position(x, y)) else Err(OutOfBoundsFloats)
    else
      Err(BadMessageSize)
  }

  // ---- the wire messages the server writes, as words ----

  /** The `(id, x, y)` triples for the ids of `order`, positions taken from `m`. */
  function Entries(order: seq<Id>, m: map<Id, Position>): (r: seq<Word>)
    requires forall id :: id in order ==> id in m
    ensures |r| == 3 * |order|
  {
    if order == [] then [] else [order[0], m[order[0]].x, m[order[0]].y] + Entries(order[1..], m)
  }

  lemma {:induction false} EntriesAppend(a: seq<Id>, b: seq<Id>, m: map<Id, Position>)
    requires forall id :: id in a ==> id in m
    requires forall id :: id in b ==> id in m
    ensures Entries(a + b, m) == Entries(a, m) + Entries(b, m)
  {
    if a == [] {
      assert a + b == b;
    } else {
      assert (a + b)[1..] == a[1..] + b;
      EntriesAppend(a[1..], b, m);
    }
  }

  /** Triple `k` of the entries names the `k`-th id and its position. */
  lemma {:induction false} EntriesAt(order: seq<Id>, m: map<Id, Position>, k: nat)
    requires forall id :: id in order ==> id in m
    requires k < |order|
    ensures Entries(order, m)[3 * k .. 3 * k + 3] == [order[k], m[order[k]].x, m[order[k]].y]
  {
    if k > 0 {
      EntriesAt(order[1..], m, k - 1);
      assert Entries(order, m)[3 * k .. 3 * k + 3] == Entries(order[1..], m)[3 * (k - 1) .. 3 * (k - 1) + 3];
    }
  }

  /** `order` without `skip` (the `continue` in `make_msg_for_updated_user`). */
  function Without(order: seq<Id>, skip: Id): (r: seq<Id>)
    ensures forall id :: id in r <==> id in order && id != skip
  {
    if order == [] then []
    else if order[0] == skip then Without(order[1..], skip)
    else [order[0]] + Without(order[1..], skip)
  }

  lemma {:induction false} WithoutAppend(a: seq<Id>, b: seq<Id>, skip: Id)
    ensures Without(a + b, skip) == Without(a, skip) + Without(b, skip)
  {
    if a == [] {
      assert a + b == b;
    } else {
      assert (a + b)[1..] == a[1..] + b;
      WithoutAppend(a[1..], b, skip);
    }
  }

  /** Dropping an id from a duplicate-free sequence keeps it duplicate-free and shortens it by one if it occurs. */
  lemma {:induction false} WithoutDistinct(order: seq<Id>, skip: Id)
    requires Distinct(order)
    ensures Distinct(Without(order, skip))
    ensures |Without(order, skip)| == if skip in order then |order| - 1 else |order|
  {
    if order != [] {
      assert Distinct(order[1..]);
      WithoutDistinct(order[1..], skip);
      assert order[0] !in order[1..];
      var rest := Without(order[1..], skip);
      if order[0] != skip {
        assert order[0] !in rest;
        var r := [order[0]] + rest;
        forall i, j | 0 <= i < j < |r| ensures r[i] != r[j] {
          if i == 0 {
            assert r[j] == rest[j - 1] && rest[j - 1] in rest;
          } else {
            assert r[i] == rest[i - 1] && r[j] == rest[j - 1];
          }
        }
      }
    }
  }

  /** `order` with the skipped id, if any, dropped. */
  function Skipping(order: seq<Id>, skip: Option<Id>): (r: seq<Id>)
    ensures forall id :: id in r <==> id in order && skip != Some(id)
  {
    if skip.Some? then Without(order, skip.value) else order
  }

  /** Extending the enumeration by one id extends the kept ids by it unless it is skipped. */
  lemma SkippingSnoc(order: seq<Id>, id: Id, skip: Option<Id>)
    ensures Skipping(order + [id], skip) == if skip == Some(id) then Skipping(order, skip) else Skipping(order, skip) + [id]
  {
    if skip.Some? {
      WithoutAppend(order, [id], skip.value);
      assert Without([id], skip.value) == if id == skip.value then [] else [id];
    }
  }

  /** A record of type 2: header `(2, count)` and the triples. */
  function UpdateRecord(order: seq<Id>, count: nat, m: map<Id, Position>): seq<Word>
    requires forall id :: id in order ==> id in m
  {
    [UpdateType, U32(count)] + Entries(order, m)
  }

  /** A record of type 3: header `(3, count)` and the ids. */
  function RemoveRecord(removes: seq<Id>): seq<Word>
  {
    [RemoveType, U32(|removes|)] + removes
  }

  /** The message `make_msg_for_idle_users` builds, written out as words. */
  function IdleMsgWords(order: seq<Id>, updates: map<Id, Position>, removes: seq<Id>): seq<Word>
    requires forall id :: id in order ==> id in updates
  {
    (if |updates| != 0 then UpdateRecord(order, |updates|, updates) else [])
    + (if removes != [] then RemoveRecord(removes) else [])
  }

  /** The message `make_msg_for_updated_user(skip)` builds, as words; `None` if it builds none. */
  function UpdatedUserMsgWords(order: seq<Id>, updates: map<Id, Position>, removes: seq<Id>, skip: Id): Option<seq<Word>>
    requires forall id :: id in order ==> id in updates
  {
    if |updates| <= 1 && removes == [] then None
    else
      Some((if |updates| > 1 then UpdateRecord(Skipping(order, Some(skip)), |updates| - 1, updates) else [])
           + (if removes != [] then RemoveRecord(removes) else []))
  }

  datatype User = User(queuedPosition: Position, lastBroadcastedPosition: Position)

  /** The position every peer was last told for each user. */
  function LastPositions(users: map<Id, User>): (m: map<Id, Position>)
    ensures m.Keys == users.Keys
  {
    map id | id in users :: users[id].lastBroadcastedPosition
  }

  /** The join snapshot `Connect` sends a newcomer, as words. */
  function SnapshotWords(order: seq<Id>, users: map<Id, User>): seq<Word>
    requires forall id :: id in order ==> id in users
  {
    UpdateRecord(order, |users|, LastPositions(users))
  }

  /** The idle message has `(updates_len + removes_len) * 4` bytes, the size `make_msg_for_idle_users` reserves. */
  lemma IdleMsgSize(order: seq<Id>, updates: map<Id, Position>, removes: seq<Id>)
    requires Enumerates(order, updates.Keys)
    ensures |WordsToBytes(IdleMsgWords(order, updates, removes))|
         == ((if |updates| != 0 then 2 + 3 * |updates| else 0) + (if removes != [] then 2 + |removes| else 0)) * 4
  {
    EnumeratesCard(order, updates.Keys);
  }

  /**
   * The join snapshot: one type-2 header whose count is the number of existing
   * users, then one `(id, x, y)` triple per user at its last broadcast position,
   * `(2 + 3n) * 4` bytes in all, and no triple names an id outside `users`.
   */
  lemma SnapshotLayout(order: seq<Id>, users: map<Id, User>, k: nat)
    requires Enumerates(order, users.Keys)
    requires |users| < 0x1_0000_0000
    requires k < |users|
    ensures var ws := SnapshotWords(order, users);
      && |WordsToBytes(ws)| == (2 + 3 * |users|) * 4
      && ws[0] == UpdateType && ws[1] == |users|
      && ws[2 + 3 * k] in users
      && ws[2 + 3 * k .. 5 + 3 * k] == [order[k], users[order[k]].lastBroadcastedPosition.x, users[order[k]].lastBroadcastedPosition.y]
  {
    EnumeratesCard(order, users.Keys);
    var last := LastPositions(users);
    var ws := SnapshotWords(order, users);
    var es := Entries(order, last);
    var id := order[k];
    assert id in order;
    assert last[id] == users[id].lastBroadcastedPosition;
    assert ws == [UpdateType, U32(|users|)] + es;
    EntriesAt(order, last, k);
    assert ws[2 + 3 * k .. 5 + 3 * k] == es[3 * k .. 3 * k + 3];
    assert ws[2 + 3 * k] == es[3 * k .. 3 * k + 3][0] == id;
  }

  /**
   * The count `make_msg_for_updated_user` writes, `len - 1`, is the number of
   * triples it writes exactly when the skipped id is itself queued; the skipped
   * id is never among them.
   */
  lemma UpdatedUserMsgCount(order: seq<Id>, updates: map<Id, Position>, skip: Id)
    requires Enumerates(order, updates.Keys)
    ensures skip in updates <==> |Without(order, skip)| == |updates| - 1
    ensures skip !in Without(order, skip)
  {
    EnumeratesCard(order, updates.Keys);
    WithoutDistinct(order, skip);
  }

  /** Appending a record header to encoded bytes. */
  lemma HeaderStep(t: Word, c: Word)
    ensures WordsToBytes([t, c]) == LeBytes(t) + LeBytes(c)
  {
    WordsToBytesSnoc([t], c);
    assert WordsToBytes([t]) == LeBytes(t) + WordsToBytes([]);
  }

  /** Appending one `(id, x, y)` triple to an encoded update record. */
  lemma TripleStep(head: seq<Word>, kept: seq<Id>, id: Id, m: map<Id, Position>)
    requires forall k :: k in kept ==> k in m
    requires id in m
    ensures WordsToBytes(head + Entries(kept + [id], m))
         == WordsToBytes(head + Entries(kept, m)) + LeBytes(id) + LeBytes(m[id].x) + LeBytes(m[id].y)
  {
    EntriesAppend(kept, [id], m);
    assert Entries([id], m) == [id, m[id].x, m[id].y] + Entries([], m);
    var ws := head + Entries(kept, m);
    assert head + Entries(kept + [id], m) == ws + [id] + [m[id].x] + [m[id].y];
    WordsToBytesSnoc(ws, id);
    WordsToBytesSnoc(ws + [id], m[id].x);
    WordsToBytesSnoc(ws + [id] + [m[id].x], m[id].y);
  }

  /** The join snapshot's loop writes user `order[i]` at its last broadcast position. */
  lemma SnapshotStep(head: seq<Word>, order: seq<Id>, i: nat, users: map<Id, User>)
    requires forall id :: id in order ==> id in users
    requires i < |order|
    ensures forall id :: id in order[..i + 1] ==> id in LastPositions(users)
    ensures WordsToBytes(head + Entries(order[..i + 1], LastPositions(users)))
         == WordsToBytes(head + Entries(order[..i], LastPositions(users)))
            + LeBytes(order[i]) + LeBytes(users[order[i]].lastBroadcastedPosition.x)
            + LeBytes(users[order[i]].lastBroadcastedPosition.y)
  {
    var last := LastPositions(users);
    assert last[order[i]] == users[order[i]].lastBroadcastedPosition;
    assert order[..i + 1] == order[..i] + [order[i]];
    TripleStep(head, order[..i], order[i], last);
  }

  // ---- the State actor ----

  /** A message handed to a session's mailbox. */
  datatype MessageToUser = JsonMyId(id: Id) | Binary(bytes: seq<Byte>)

  /** What `Connect` returns: the new id and the messages sent to the newcomer. */
  datatype Joined = Joined(id: Id, sent: seq<MessageToUser>) | IdOverflow

  /** The last broadcast position of a user is (compares equal to) its current one. */
  predicate Settled(u: User)
  {
    u.queuedPosition == u.lastBroadcastedPosition || PositionEq(u.queuedPosition, u.lastBroadcastedPosition)
  }

  /**
   * The invariant of the `State` tables: ids are drawn from 1..latest_id;
   * queued updates name live users, hold their current position and only real
   * changes; every other user is settled; queued removes are distinct ids of
   * users that are gone.
   */
  ghost predicate Inv(latestId: Word, users: map<Id, User>, updates: map<Id, Position>, removes: seq<Id>)
  {
    && (forall id :: id in users ==> 1 <= id <= latestId)
    && updates.Keys <= users.Keys
    && (forall id :: id in updates ==>
          updates[id] == users[id].queuedPosition
          && !PositionEq(users[id].queuedPosition, users[id].lastBroadcastedPosition))
    && (forall id :: id in users && id !in updates ==> Settled(users[id]))
    && Distinct(removes)
    && (forall i :: 0 <= i < |removes| ==> 1 <= removes[i] <= latestId && removes[i] !in users)
  }

  /**
   * Under the invariant, the lengths written with `as u32` fit in 32 bits:
   * live users and queued removes are distinct ids from 1..latest_id.
   */
  lemma CountsFit(latestId: Word, users: map<Id, User>, updates: map<Id, Position>, removes: seq<Id>)
    requires Inv(latestId, users, updates, removes)
    ensures |updates| <= |users|
    ensures |users| + |removes| <= latestId < 0x1_0000_0000
  {
    var live := users.Keys;
    var gone := Elems(removes);
    DistinctCard(removes);
    GoneIdsBounded(latestId, users, removes);
    var all := live + gone;
    BoundedIdsCard(all, latestId);
    assert |all| == |live| + |gone|;
    SubsetCard(updates.Keys, live);
  }

  /** A newcomer drawn as the next id joins settled at the origin, and the invariant is kept. */
  lemma JoinKeepsInv(latestId: Word, users: map<Id, User>, updates: map<Id, Position>, removes: seq<Id>)
    requires Inv(latestId, users, updates, removes)
    requires latestId < MaxId
    ensures latestId + 1 !in users
    ensures Inv(latestId + 1, users[latestId + 1 := User(Position(0, 0), Position(0, 0))], updates, removes)
  {
  }

  lemma SubsetCard(a: set<Id>, b: set<Id>)
    requires a <= b
    ensures |a| <= |b|
  {
    assert b == a + (b - a);
    assert a !! (b - a);
  }

  lemma GoneIdsBounded(latestId: Word, users: map<Id, User>, removes: seq<Id>)
    requires forall id :: id in users ==> 1 <= id <= latestId
    requires forall i :: 0 <= i < |removes| ==> 1 <= removes[i] <= latestId && removes[i] !in users
    ensures users.Keys !! Elems(removes)
    ensures forall id :: id in users.Keys + Elems(removes) ==> 1 <= id <= latestId
  {
    forall id | id in Elems(removes) ensures 1 <= id <= latestId && id !in users {
      var i :| 0 <= i < |removes| && removes[i] == id;
    }
  }

  /** `users` after a broadcast: every updated user's last broadcast position is its queued one. */
  function Broadcasted(users: map<Id, User>, updated: set<Id>): (r: map<Id, User>)
    ensures r.Keys == users.Keys
    ensures forall id :: id in users ==>
      r[id].queuedPosition == users[id].queuedPosition
      && r[id].lastBroadcastedPosition == (if id in updated then users[id].queuedPosition else users[id].lastBroadcastedPosition)
  {
    map id | id in users :: if id in updated then users[id].(lastBroadcastedPosition := users[id].queuedPosition) else users[id]
  }

  /** The message a broadcast hands to user `id`: its own if it is updated, else the idle one. */
  function MessageFor(order: seq<Id>, updates: map<Id, Position>, removes: seq<Id>, id: Id): Option<seq<Byte>>
    requires forall id :: id in order ==> id in updates
  {
    if id in updates then UpdatedMsg(order, updates, removes, id) else Some(IdleMsg(order, updates, removes))
  }

  /** The bytes of the message for the idle users. */
  function IdleMsg(order: seq<Id>, updates: map<Id, Position>, removes: seq<Id>): seq<Byte>
    requires forall id :: id in order ==> id in updates
  {
    WordsToBytes(IdleMsgWords(order, updates, removes))
  }

  /** The bytes of the message for updated user `id`, if it gets one. */
  function UpdatedMsg(order: seq<Id>, updates: map<Id, Position>, removes: seq<Id>, id: Id): Option<seq<Byte>>
    requires forall id :: id in order ==> id in updates
  {
    match UpdatedUserMsgWords(order, updates, removes, id)
    case Some(ws) => Some(WordsToBytes(ws))
    case None => None
  }

  /** The messages a broadcast hands out, one per user that has one. */
  function Deliveries(order: seq<Id>, users: map<Id, User>, updates: map<Id, Position>, removes: seq<Id>): map<Id, seq<Byte>>
    requires forall id :: id in order ==> id in updates
  {
    map id | id in users && MessageFor(order, updates, removes, id).Some? :: MessageFor(order, updates, removes, id).value
  }

  /** What the idle users receive: the same message, each of them. */
  function IdleDeliveries(order: seq<Id>, users: map<Id, User>, updates: map<Id, Position>, removes: seq<Id>): map<Id, seq<Byte>>
    requires forall id :: id in order ==> id in updates
  {
    map id | id in users.Keys - updates.Keys :: IdleMsg(order, updates, removes)
  }

  /** What the updated users in `within` receive: each its own message, when it has one. */
  function UpdatedDeliveries(order: seq<Id>, updates: map<Id, Position>, removes: seq<Id>, within: set<Id>): map<Id, seq<Byte>>
    requires forall id :: id in order ==> id in updates
  {
    map id | id in within && UpdatedMsg(order, updates, removes, id).Some? :: UpdatedMsg(order, updates, removes, id).value
  }

  /** Handling one more updated user adds its message, if it has one. */
  lemma UpdatedDeliveriesStep(order: seq<Id>, updates: map<Id, Position>, removes: seq<Id>, done: set<Id>, id: Id)
    requires forall id :: id in order ==> id in updates
    ensures UpdatedDeliveries(order, updates, removes, done + {id})
         == if UpdatedMsg(order, updates, removes, id).Some?
            then UpdatedDeliveries(order, updates, removes, done)[id := UpdatedMsg(order, updates, removes, id).value]
            else UpdatedDeliveries(order, updates, removes, done)
  {
    var l := UpdatedDeliveries(order, updates, removes, done + {id});
    var d := UpdatedDeliveries(order, updates, removes, done);
    var msg := UpdatedMsg(order, updates, removes, id);
    if msg.Some? {
      MapsAgree(l, d[id := msg.value]);
    } else {
      MapsAgree(l, d);
    }
  }

  /** The deliveries are the idle users' messages together with the updated users' ones. */
  lemma DeliveriesSplit(order: seq<Id>, users: map<Id, User>, updates: map<Id, Position>, removes: seq<Id>)
    requires forall id :: id in order ==> id in updates
    requires updates.Keys <= users.Keys
    ensures IdleDeliveries(order, users, updates, removes) + UpdatedDeliveries(order, updates, removes, updates.Keys)
         == Deliveries(order, users, updates, removes)
  {
    var i := IdleDeliveries(order, users, updates, removes);
    var u := UpdatedDeliveries(order, updates, removes, updates.Keys);
    var d := Deliveries(order, users, updates, removes);
    forall id
      ensures id in i + u <==> id in d
      ensures id in d ==> (i + u)[id] == d[id]
    {
      DeliveryAt(order, users, updates, removes, id);
    }
    MapsAgree(i + u, d);
  }

  /** Two maps with the same keys and the same value at each key are equal. */
  lemma MapsAgree(a: map<Id, seq<Byte>>, b: map<Id, seq<Byte>>)
    requires forall id :: id in a <==> id in b
    requires forall id :: id in a ==> a[id] == b[id]
    ensures a == b
  {
    assert a.Keys == b.Keys;
  }

  lemma DeliveryAt(order: seq<Id>, users: map<Id, User>, updates: map<Id, Position>, removes: seq<Id>, id: Id)
    requires forall id :: id in order ==> id in updates
    requires updates.Keys <= users.Keys
    ensures id in IdleDeliveries(order, users, updates, removes) + UpdatedDeliveries(order, updates, removes, updates.Keys)
        <==> id in Deliveries(order, users, updates, removes)
    ensures id in Deliveries(order, users, updates, removes) ==>
      (IdleDeliveries(order, users, updates, removes) + UpdatedDeliveries(order, updates, removes, updates.Keys))[id]
        == Deliveries(order, users, updates, removes)[id]
  {
    if id in updates {
      assert id !in IdleDeliveries(order, users, updates, removes);
    }
  }

  /** A broadcast leaves every user settled and the state valid with empty queues. */
  lemma BroadcastSettles(latestId: Word, users: map<Id, User>, updates: map<Id, Position>, removes: seq<Id>)
    requires Inv(latestId, users, updates, removes)
    ensures forall id :: id in Broadcasted(users, updates.Keys) ==> Settled(Broadcasted(users, updates.Keys)[id])
    ensures Inv(latestId, Broadcasted(users, updates.Keys), map[], [])
  {
  }

  /** A map handing the idle message to exactly the idle users is `IdleDeliveries`. */
  lemma IdleDeliveriesPointwise(order: seq<Id>, users: map<Id, User>, updates: map<Id, Position>, removes: seq<Id>,
                                d: map<Id, seq<Byte>>)
    requires forall id :: id in order ==> id in updates
    requires d.Keys == users.Keys - updates.Keys
    requires forall id :: id in d ==> d[id] == IdleMsg(order, updates, removes)
    ensures d == IdleDeliveries(order, users, updates, removes)
  {
  }

  /** Settling one more updated user changes its entry alone. */
  lemma BroadcastedStep(users: map<Id, User>, done: set<Id>, id: Id)
    requires id in users && id !in done
    ensures Broadcasted(users, done)[id] == users[id]
    ensures Broadcasted(users, done + {id})
         == Broadcasted(users, done)[id := users[id].(lastBroadcastedPosition := users[id].queuedPosition)]
  {
    var l := Broadcasted(users, done + {id});
    var r := Broadcasted(users, done)[id := users[id].(lastBroadcastedPosition := users[id].queuedPosition)];
    assert l.Keys == r.Keys;
  }

  class State {
    var latestId: Word
    var broadcastQueued: bool
    var users: map<Id, User>
    var queuedUpdates: map<Id, Position>
    var queuedRemoves: seq<Id>

    ghost predicate Valid()
      reads this
    {
      Inv(latestId, users, queuedUpdates, queuedRemoves)
    }

    /** `State::default`. */
    constructor ()
      ensures Valid()
      ensures latestId == 0 && !broadcastQueued
      ensures users == map[] && |queuedUpdates| == 0 && queuedRemoves == []
    {
      latestId := 0;
      broadcastQueued := false;
      users := map[];
      queuedUpdates := map[];
      queuedRemoves := [];
    }

    /**
     * `queue_broadcast`, with the clock left out: a broadcast is now due, and
     * the environment runs `BroadcastCursors` (at once or after the interval).
     */
    method QueueBroadcast()
      modifies this`broadcastQueued
      ensures broadcastQueued
    {
      broadcastQueued := true;
    }

    /** `Handler<PositionUpdate>`; the `unwrap` demands that `id` is a live user. */
    method PositionUpdate(id: Id, p: Position)
      requires Valid()
      requires id in users
      modifies this`users, this`queuedUpdates, this`broadcastQueued
      ensures Valid()
      ensures users == old(users)[id := old(users)[id].(queuedPosition := p)]
      ensures id in queuedUpdates <==> !PositionEq(old(users)[id].lastBroadcastedPosition, p)
      ensures id in queuedUpdates ==> queuedUpdates[id] == p
      ensures queuedUpdates - {id} == old(queuedUpdates) - {id}
      ensures broadcastQueued == (old(broadcastQueued) || id in queuedUpdates)
    {
      var user := users[id];
      users := users[id := user.(queuedPosition := p)];
      if PositionEq(user.lastBroadcastedPosition, p) {
        queuedUpdates := queuedUpdates - {id};
      } else {
        queuedUpdates := queuedUpdates[id := p];
        QueueBroadcast();
      }
    }

    /** `Handler<Remove>`: acts only when `id` is a live user. */
    method Remove(id: Id)
      requires Valid()
      modifies this`users, this`queuedUpdates, this`queuedRemoves, this`broadcastQueued
      ensures Valid()
      ensures id in old(users) ==>
        && users == old(users) - {id}
        && queuedUpdates == old(queuedUpdates) - {id}
        && queuedRemoves == old(queuedRemoves) + [id]
        && multiset(queuedRemoves)[id] == 1
        && broadcastQueued
      ensures id !in old(users) ==>
        && users == old(users) && queuedUpdates == old(queuedUpdates)
        && queuedRemoves == old(queuedRemoves) && broadcastQueued == old(broadcastQueued)
    {
      if id in users {
        users := users - {id};
        queuedUpdates := queuedUpdates - {id};
        assert id !in old(queuedRemoves);
        queuedRemoves := queuedRemoves + [id];
        QueueBroadcast();
      }
    }

    /**
     * `Handler<Connect>`: the next id, its `myid` message, the join snapshot of
     * the users already present (only if there are any), then the newcomer is
     * inserted at (0.0, 0.0). `order` is the iteration order of `users`.
     * Incrementing `latest_id` past `u32::MAX` overflows: `IdOverflow`, nothing changes.
     */
    method Connect(order: seq<Id>) returns (r: Joined)
      requires Valid()
      requires Enumerates(order, users.Keys)
      modifies this`latestId, this`users
      ensures Valid()
      ensures old(latestId) == MaxId ==> r == IdOverflow && latestId == old(latestId) && users == old(users)
      ensures old(latestId) < MaxId ==>
        && r.Joined?
        && r.id == old(latestId) + 1 == latestId
        && r.id !in old(users)
        && users == old(users)[r.id := User(Position(0, 0), Position(0, 0))]
        && r.sent == [JsonMyId(r.id)]
                     + (if |old(users)| != 0 then [Binary(WordsToBytes(SnapshotWords(order, old(users))))] else [])
    {
      if latestId == MaxId {
        return IdOverflow;
      }
      latestId := latestId + 1;
      var id := latestId;
      var sent := [JsonMyId(id)];
      if |users| > 0 {
        var msg := MakeJoinSnapshot(order);
        sent := sent + [Binary(msg)];
      }
      assert id !in users;  // the `assert!(... .insert(..).is_none())`
      JoinKeepsInv(id - 1, users, queuedUpdates, queuedRemoves);
      users := users[id := User(Position(0, 0), Position(0, 0))];
      r := Joined(id, sent);
    }

    /**
     * The join snapshot built inside `Handler<Connect>`: header `(2, len)` and
     * the loop over `users` in `order` writing each id with its last broadcast
     * position.
     */
    method MakeJoinSnapshot(order: seq<Id>) returns (msg: seq<Byte>)
      requires Enumerates(order, users.Keys)
      ensures msg == WordsToBytes(SnapshotWords(order, users))
    {
      var len := |users|;
      var last := LastPositions(users);
      var header := [UpdateType, U32(len)];
      msg := LeBytes(UpdateType) + LeBytes(U32(len));
      HeaderStep(UpdateType, U32(len));
      for i := 0 to |order|
        invariant msg == WordsToBytes(header + Entries(order[..i], last))
      {
        var uid := order[i];
        assert uid in order;
        var user := users[uid];
        SnapshotStep(header, order, i, users);
        msg := msg + LeBytes(uid) + LeBytes(user.lastBroadcastedPosition.x) + LeBytes(user.lastBroadcastedPosition.y);
      }
      assert order[..|order|] == order;
    }

    /**
     * `make_msg_for_idle_users`: the update record if updates are queued, then
     * the remove record if removes are queued. `order` is the iteration order of
     * `queued_updates`; its `assert!(buffer_size > 0)` demands a non-empty queue.
     */
    method MakeMsgForIdleUsers(order: seq<Id>) returns (msg: seq<Byte>)
      requires Enumerates(order, queuedUpdates.Keys)
      requires |queuedUpdates| != 0 || queuedRemoves != []
      ensures msg == WordsToBytes(IdleMsgWords(order, queuedUpdates, queuedRemoves))
      ensures |msg| == ((if |queuedUpdates| != 0 then 2 + 3 * |queuedUpdates| else 0)
                        + (if queuedRemoves != [] then 2 + |queuedRemoves| else 0)) * 4
    {
      ghost var ws: seq<Word> := [];
      msg := [];
      if |queuedUpdates| != 0 {
        msg := AppendUpdateRecord(msg, order, |queuedUpdates|, None);
        ws := UpdateRecord(order, |queuedUpdates|, queuedUpdates);
        assert msg == WordsToBytes(ws);
      } else {
        assert ws + RemoveRecord(queuedRemoves) == RemoveRecord(queuedRemoves);
      }
      if queuedRemoves != [] {
        msg := AppendRemoveRecord(msg);
        WordsToBytesAppend(ws, RemoveRecord(queuedRemoves));
        ws := ws + RemoveRecord(queuedRemoves);
      } else {
        assert ws == ws + [];
      }
      assert IdleMsgWords(order, queuedUpdates, queuedRemoves) == ws;
      IdleMsgSize(order, queuedUpdates, queuedRemoves);
    }

    /**
     * `make_msg_for_updated_user(skip)`: the update record without `skip`'s
     * triple when more than one update is queued, then the remove record when
     * removes are queued; `None` when neither applies.
     */
    method MakeMsgForUpdatedUser(order: seq<Id>, skip: Id) returns (msg: Option<seq<Byte>>)
      requires Enumerates(order, queuedUpdates.Keys)
      ensures msg == UpdatedMsg(order, queuedUpdates, queuedRemoves, skip)
    {
      ghost var ws: seq<Word> := [];
      var bytes: seq<Byte> := [];
      var any := false;
      if |queuedUpdates| > 1 {
        any := true;
        bytes := AppendUpdateRecord(bytes, order, |queuedUpdates| - 1, Some(skip));
        ws := UpdateRecord(Skipping(order, Some(skip)), |queuedUpdates| - 1, queuedUpdates);
        assert bytes == WordsToBytes(ws);
      } else {
        assert ws + RemoveRecord(queuedRemoves) == RemoveRecord(queuedRemoves);
      }
      if queuedRemoves != [] {
        any := true;
        bytes := AppendRemoveRecord(bytes);
        WordsToBytesAppend(ws, RemoveRecord(queuedRemoves));
        ws := ws + RemoveRecord(queuedRemoves);
      } else {
        assert ws == ws + [];
      }
      if any {
        assert UpdatedUserMsgWords(order, queuedUpdates, queuedRemoves, skip) == Some(ws);
        msg := Some(bytes);
      } else {
        msg := None;
      }
    }

    /**
     * The part both update records share: header `(2, count)` and the loop over
     * `queued_updates` in `order` writing one triple per id other than `skip`.
     */
    method AppendUpdateRecord(msg0: seq<Byte>, order: seq<Id>, count: nat, skip: Option<Id>) returns (msg: seq<Byte>)
      requires forall id :: id in order ==> id in queuedUpdates
      ensures msg == msg0 + WordsToBytes(UpdateRecord(Skipping(order, skip), count, queuedUpdates))
    {
      var header := [UpdateType, U32(count)];
      HeaderStep(UpdateType, U32(count));
      var body := LeBytes(UpdateType) + LeBytes(U32(count));
      for i := 0 to |order|
        invariant body == WordsToBytes(header + Entries(Skipping(order[..i], skip), queuedUpdates))
      {
        var id := order[i];
        assert order[..i + 1] == order[..i] + [id];
        SkippingSnoc(order[..i], id, skip);
        if skip == Some(id) {
          continue;
        }
        var pos := queuedUpdates[id];
        body := body + LeBytes(id) + LeBytes(pos.x) + LeBytes(pos.y);
        TripleStep(header, Skipping(order[..i], skip), id, queuedUpdates);
      }
      assert order[..|order|] == order;
      msg := msg0 + body;
    }

    /** The remove record: header `(3, len)` and the loop over `queued_removes`. */
    method AppendRemoveRecord(msg0: seq<Byte>) returns (msg: seq<Byte>)
      ensures msg == msg0 + WordsToBytes(RemoveRecord(queuedRemoves))
    {
      var header := [RemoveType, U32(|queuedRemoves|)];
      HeaderStep(RemoveType, U32(|queuedRemoves|));
      var body := LeBytes(RemoveType) + LeBytes(U32(|queuedRemoves|));
      for i := 0 to |queuedRemoves|
        invariant body == WordsToBytes(header + queuedRemoves[..i])
      {
        var id := queuedRemoves[i];
        body := body + LeBytes(id);
        assert header + queuedRemoves[..i + 1] == (header + queuedRemoves[..i]) + [id];
        WordsToBytesSnoc(header + queuedRemoves[..i], id);
      }
      assert queuedRemoves[..|queuedRemoves|] == queuedRemoves;
      msg := msg0 + body;
    }

    /** The idle users all receive the same message (the first loop of `broadcast_cursors`). */
    method SendToIdle(order: seq<Id>) returns (toIdle: map<Id, seq<Byte>>)
      requires Enumerates(order, queuedUpdates.Keys)
      requires |queuedUpdates| != 0 || queuedRemoves != []
      ensures toIdle == IdleDeliveries(order, users, queuedUpdates, queuedRemoves)
    {
      var idleUsers := users.Keys - queuedUpdates.Keys;
      toIdle := map[];
      if idleUsers != {} {
        var msg := MakeMsgForIdleUsers(order);
        var todo := idleUsers;
        while todo != {}
          invariant todo <= idleUsers
          invariant toIdle.Keys == idleUsers - todo
          invariant forall id :: id in toIdle ==> toIdle[id] == msg
          decreases todo
        {
          var id :| id in todo;
          toIdle := toIdle[id := msg];
          todo := todo - {id};
        }
      }
      IdleDeliveriesPointwise(order, users, queuedUpdates, queuedRemoves, toIdle);
    }

    /**
     * Each updated user's position becomes its last broadcast one, and it
     * receives its own message when it has one (the second loop of `broadcast_cursors`).
     */
    method SettleUpdated(order: seq<Id>) returns (toUpdated: map<Id, seq<Byte>>)
      requires Enumerates(order, queuedUpdates.Keys)
      requires queuedUpdates.Keys <= users.Keys
      modifies this`users
      ensures users == Broadcasted(old(users), queuedUpdates.Keys)
      ensures toUpdated == UpdatedDeliveries(order, queuedUpdates, queuedRemoves, queuedUpdates.Keys)
    {
      var updatedUsers := queuedUpdates.Keys;
      toUpdated := map[];
      var todo := updatedUsers;
      while todo != {}
        invariant todo <= updatedUsers
        invariant users == Broadcasted(old(users), updatedUsers - todo)
        invariant toUpdated == UpdatedDeliveries(order, queuedUpdates, queuedRemoves, updatedUsers - todo)
        decreases todo
      {
        var id :| id in todo;
        BroadcastedStep(old(users), updatedUsers - todo, id);
        UpdatedDeliveriesStep(order, queuedUpdates, queuedRemoves, updatedUsers - todo, id);
        var user := users[id];
        users := users[id := user.(lastBroadcastedPosition := user.queuedPosition)];
        var m := MakeMsgForUpdatedUser(order, id);
        if m.Some? {
          toUpdated := toUpdated[id := m.value];
        }
        assert updatedUsers - (todo - {id}) == (updatedUsers - todo) + {id};
        todo := todo - {id};
      }
      assert updatedUsers - todo == updatedUsers;
    }

    /**
     * Sends the queued updates and removes to every user, as `broadcast_cursors`
     * does: nothing happens when both queues are empty; otherwise the users
     * receive `Deliveries`, the updated users become settled and the queues
     * and the broadcast flag are cleared.
     */
    method BroadcastCursors(order: seq<Id>) returns (sent: map<Id, seq<Byte>>)
      requires Valid()
      requires Enumerates(order, queuedUpdates.Keys)
      modifies this`users, this`queuedUpdates, this`queuedRemoves, this`broadcastQueued
      ensures Valid()
      ensures |old(queuedUpdates)| == 0 && old(queuedRemoves) == [] ==>
        && sent == map[] && users == old(users) && queuedUpdates == old(queuedUpdates)
        && queuedRemoves == old(queuedRemoves) && broadcastQueued == old(broadcastQueued)
      ensures |old(queuedUpdates)| != 0 || old(queuedRemoves) != [] ==>
        && |queuedUpdates| == 0 && queuedRemoves == [] && !broadcastQueued
        && users == Broadcasted(old(users), old(queuedUpdates).Keys)
        && (forall id :: id in users ==> Settled(users[id]))
        && sent == Deliveries(order, old(users), old(queuedUpdates), old(queuedRemoves))
    {
      if queuedRemoves == [] && |queuedUpdates| == 0 {
        return map[];
      }
      sent := Flush(order);
    }

    /** The part of `broadcast_cursors` after its early return. */
    method Flush(order: seq<Id>) returns (sent: map<Id, seq<Byte>>)
      requires Valid()
      requires Enumerates(order, queuedUpdates.Keys)
      requires |queuedUpdates| != 0 || queuedRemoves != []
      modifies this`users, this`queuedUpdates, this`queuedRemoves, this`broadcastQueued
      ensures Valid()
      ensures |queuedUpdates| == 0 && queuedRemoves == [] && !broadcastQueued
      ensures users == Broadcasted(old(users), old(queuedUpdates).Keys)
      ensures forall id :: id in users ==> Settled(users[id])
      ensures sent == Deliveries(order, old(users), old(queuedUpdates), old(queuedRemoves))
    {
      BroadcastSettles(latestId, users, queuedUpdates, queuedRemoves);
      sent := SendAll(order);
      assert Inv(latestId, users, map[], []);
      broadcastQueued := false;
      queuedUpdates := map[];
      queuedRemoves := [];
    }

    /** The two loops of `broadcast_cursors`: the idle users' messages, then the updated users'. */
    method SendAll(order: seq<Id>) returns (sent: map<Id, seq<Byte>>)
      requires Enumerates(order, queuedUpdates.Keys)
      requires |queuedUpdates| != 0 || queuedRemoves != []
      requires queuedUpdates.Keys <= users.Keys
      modifies this`users
      ensures users == Broadcasted(old(users), queuedUpdates.Keys)
      ensures sent == Deliveries(order, old(users), queuedUpdates, queuedRemoves)
    {
      DeliveriesSplit(order, users, queuedUpdates, queuedRemoves);
      var toIdle := SendToIdle(order);
      var toUpdated := SettleUpdated(order);
      sent := toIdle + toUpdated;
    }
  }
}
