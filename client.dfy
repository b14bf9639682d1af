/**
 * The browser client of public/cursors2.js, reduced to its state: the
 * `users` map from remote ids to normalized positions, the local `myid`,
 * the `queueMyPositionTimeout` throttle and the socket it sends on. The
 * DOM, rendering and timers themselves are outside the model; a div exists
 * for exactly the ids in `users`, which is what `removeUser` relies on.
 */
module Client {
  import opened Wrappers
  import opened Wire

  /** The client's `users` map, each entry reduced to its untransformed position. */
  type Store = map<Id, Position>

  // ---- the store updates ----

  /**
   * `updateUserPosition(id, p)`: the local id is ignored; any other id gets
   * position `p`, inserted when unseen, and no other entry changes.
   */
  function Upserted(users: Store, myid: int, id: Id, p: Position): (r: Store)
    ensures id == myid ==> r == users
    ensures id != myid ==> id in r && r[id] == p
    ensures myid !in users ==> myid !in r
    ensures r.Keys <= users.Keys + {id}
  {
    if id == myid then users else users[id := p]
  }

  /** An upsert leaves every entry of another id as it was. */
  lemma UpsertedKeepsOthers(users: Store, myid: int, id: Id, p: Position, k: Id)
    requires k in users && k != id
    ensures k in Upserted(users, myid, id, p) && Upserted(users, myid, id, p)[k] == users[k]
  {
  }

  /** `users.delete(id)`: only `id` goes, every other entry stays as it was. */
  function Removed(users: Store, id: Id): (r: Store)
    ensures forall k :: k in r <==> k in users && k != id
    ensures forall k :: k in r ==> r[k] == users[k]
  {
    map k | k in users && k != id :: users[k]
  }

  // ---- handleMessageBinary, as a function of the buffer ----

  /**
   * How `removeUser` treats an id with no cursor: `AsWritten` throws, as the
   * DOM lookup returns null; `IgnoreUnknown` is the evidently intended
   * behaviour, which drops the id and goes on.
   */
  datatype RemoveMode = AsWritten | IgnoreUnknown

  /** Where the decoder stands inside a record: store, word index, and whether it threw. */
  datatype Progress = Progress(users: Store, pos: nat, threw: bool)

  /** The store after a whole buffer, and whether the handler threw part-way. */
  datatype Decoded = Decoded(users: Store, threw: bool)

  /**
   * The `count` triples of a type-1 or type-2 record, from word `pos` on:
   * each read of a word past the end throws, and the entries applied before
   * it stay applied.
   */
  function DecodeUpdates(buf: seq<Byte>, myid: int, pos: nat, n: nat, users: Store): (r: Progress)
    ensures r.threw <==> n > 0 && |buf| < 4 * (pos + 3 * n)
    ensures !r.threw ==> r.pos == pos + 3 * n
    ensures myid !in users ==> myid !in r.users
    decreases n
  {
    if n == 0 then Progress(users, pos, false)
    else if |buf| < 4 * (pos + 3) then Progress(users, pos, true)
    else
      var id, x, y := ReadWord(buf, pos).value, ReadWord(buf, pos + 1).value, ReadWord(buf, pos + 2).value;
      DecodeUpdates(buf, myid, pos + 3, n - 1, Upserted(users, myid, id, Position(x, y)))
  }

  /**
   * The `count` ids of a type-3 record, from word `pos` on. Under `AsWritten`
   * an id without a cursor throws after it has been deleted from the map
   * (where it was not), so the later ids of the record are lost.
   */
  function DecodeRemoves(buf: seq<Byte>, pos: nat, n: nat, users: Store, mode: RemoveMode): (r: Progress)
    ensures n > 0 && |buf| < 4 * (pos + n) ==> r.threw
    ensures mode == IgnoreUnknown ==> (r.threw <==> n > 0 && |buf| < 4 * (pos + n))
    ensures !r.threw ==> r.pos == pos + n
    ensures forall k :: k in r.users ==> k in users
    decreases n
  {
    if n == 0 then Progress(users, pos, false)
    else
      match ReadWord(buf, pos)
      case None => Progress(users, pos, true)
      case Some(id) =>
        if mode == AsWritten && id !in users then Progress(users, pos, true)
        else DecodeRemoves(buf, pos + 1, n - 1, Removed(users, id), mode)
  }

  /**
   * One pass of the loop of `handleMessageBinary` at word `pos`: read a
   * `type` and a `count` header; a zero count or an unknown type consumes only
   * the header, types 1 and 2 are update records and type 3 a remove record.
   */
  function DecodeRecord(buf: seq<Byte>, myid: int, pos: nat, users: Store, mode: RemoveMode): (r: Progress)
    ensures !r.threw ==> pos + 2 <= r.pos && 4 * r.pos <= |buf|
    ensures myid !in users ==> myid !in r.users
  {
    if |buf| < 4 * (pos + 2) then Progress(users, pos, true)
    else
      var t, count := ReadWord(buf, pos).value, ReadWord(buf, pos + 1).value;
      if count == 0 then Progress(users, pos + 2, false)
      else if t == 1 || t == 2 then DecodeUpdates(buf, myid, pos + 2, count, users)
      else if t == 3 then DecodeRemoves(buf, pos + 2, count, users, mode)
      else Progress(users, pos + 2, false)
  }

  /** `handleMessageBinary` from word `pos` on: records follow one another while a word starts before the end. */
  function DecodeFrom(buf: seq<Byte>, myid: int, pos: nat, users: Store, mode: RemoveMode): (r: Decoded)
    ensures myid !in users ==> myid !in r.users
    decreases |buf| - 4 * pos
  {
    if |buf| <= 4 * pos then Decoded(users, false)
    else
      var p := DecodeRecord(buf, myid, pos, users, mode);
      if p.threw then Decoded(p.users, true) else DecodeFrom(buf, myid, p.pos, p.users, mode)
  }

  /** One triple that is all there: it is upserted and decoding goes on after it. */
  lemma UpdatesStep(buf: seq<Byte>, myid: int, pos: nat, n: nat, users: Store, id: Id, x: Word, y: Word)
    requires n > 0
    requires ReadWord(buf, pos) == Some(id) && ReadWord(buf, pos + 1) == Some(x) && ReadWord(buf, pos + 2) == Some(y)
    ensures DecodeUpdates(buf, myid, pos, n, users)
         == DecodeUpdates(buf, myid, pos + 3, n - 1, Upserted(users, myid, id, Position(x, y)))
  {
  }

  /** A triple cut off by the end of the buffer: the first read throws, nothing changes. */
  lemma UpdatesShort(buf: seq<Byte>, myid: int, pos: nat, n: nat, users: Store)
    requires n > 0 && |buf| < 4 * (pos + 3)
    ensures DecodeUpdates(buf, myid, pos, n, users) == Progress(users, pos, true)
  {
  }

  /** One id that is there and, as written, known: it is deleted and decoding goes on after it. */
  lemma RemovesStep(buf: seq<Byte>, pos: nat, n: nat, users: Store, mode: RemoveMode, id: Id)
    requires n > 0
    requires ReadWord(buf, pos) == Some(id)
    requires mode == AsWritten ==> id in users
    ensures DecodeRemoves(buf, pos, n, users, mode) == DecodeRemoves(buf, pos + 1, n - 1, Removed(users, id), mode)
  {
  }

  /** A header with count zero consumes its two words and changes nothing. */
  lemma ZeroCountHeader(buf: seq<Byte>, myid: int, pos: nat, users: Store, mode: RemoveMode)
    requires ReadWord(buf, pos).Some? && ReadWord(buf, pos + 1) == Some(0)
    ensures DecodeRecord(buf, myid, pos, users, mode) == Progress(users, pos + 2, false)
  {
  }

  /** A header of an unknown type consumes only its two words; the next word is read as a header. */
  lemma UnknownTypeHeader(buf: seq<Byte>, myid: int, pos: nat, users: Store, mode: RemoveMode)
    requires ReadWord(buf, pos).Some? && ReadWord(buf, pos).value !in {1, 2, 3}
    requires ReadWord(buf, pos + 1).Some?
    ensures DecodeRecord(buf, myid, pos, users, mode) == Progress(users, pos + 2, false)
  {
  }

  /**
   * Types 1 and 2 decode alike: two buffers that differ only in a header's
   * type word, 1 in one and 2 in the other, decode alike from that header on.
   */
  lemma AddIsUpdate(a: seq<Byte>, b: seq<Byte>, myid: int, pos: nat, users: Store, mode: RemoveMode)
    requires |a| == |b| && 4 * pos + 4 <= |a|
    requires ReadWord(a, pos) == Some(1) && ReadWord(b, pos) == Some(2)
    requires a[4 * pos + 4..] == b[4 * pos + 4..]
    ensures DecodeFrom(a, myid, pos, users, mode) == DecodeFrom(b, myid, pos, users, mode)
  {
    forall i: nat | pos + 1 <= i
      ensures ReadWord(a, i) == ReadWord(b, i)
    {
      SuffixWordsAgree(a, b, pos + 1, i);
    }
    if 4 * (pos + 2) <= |a| {
      UpdatesAgree(a, b, myid, pos + 2, ReadWord(a, pos + 1).value, users, pos + 1);
    }
    var p := DecodeRecord(a, myid, pos, users, mode);
    assert p == DecodeRecord(b, myid, pos, users, mode);
    if !p.threw {
      FromAgree(a, b, myid, p.pos, p.users, mode, pos + 1);
    }
  }

  /** Two buffers of one length with the same bytes from word `k` on hold the same words there. */
  lemma SuffixWordsAgree(a: seq<Byte>, b: seq<Byte>, k: nat, i: nat)
    requires |a| == |b| && 4 * k <= |a| && a[4 * k..] == b[4 * k..] && k <= i
    ensures ReadWord(a, i) == ReadWord(b, i)
  {
    if 4 * i + 4 <= |a| {
      var j := 4 * (i - k);
      assert a[4 * i] == a[4 * k..][j] == b[4 * i];
      assert a[4 * i + 1] == a[4 * k..][j + 1] == b[4 * i + 1];
      assert a[4 * i + 2] == a[4 * k..][j + 2] == b[4 * i + 2];
      assert a[4 * i + 3] == a[4 * k..][j + 3] == b[4 * i + 3];
    }
  }

  /** Two buffers that agree on every word from `from` on decode alike from any later word. */
  lemma {:induction false} FromAgree(a: seq<Byte>, b: seq<Byte>, myid: int, pos: nat, users: Store, mode: RemoveMode, from: nat)
    requires |a| == |b| && from <= pos
    requires forall i: nat :: from <= i ==> ReadWord(a, i) == ReadWord(b, i)
    ensures DecodeFrom(a, myid, pos, users, mode) == DecodeFrom(b, myid, pos, users, mode)
    decreases |a| - 4 * pos
  {
    if 4 * pos < |a| {
      RecordAgree(a, b, myid, pos, users, mode, from);
      var p := DecodeRecord(a, myid, pos, users, mode);
      if !p.threw {
        FromAgree(a, b, myid, p.pos, p.users, mode, from);
      }
    }
  }

  lemma RecordAgree(a: seq<Byte>, b: seq<Byte>, myid: int, pos: nat, users: Store, mode: RemoveMode, from: nat)
    requires |a| == |b| && from <= pos
    requires forall i: nat :: from <= i ==> ReadWord(a, i) == ReadWord(b, i)
    ensures DecodeRecord(a, myid, pos, users, mode) == DecodeRecord(b, myid, pos, users, mode)
  {
    if 4 * (pos + 2) <= |a| {
      var t, c := ReadWord(a, pos).value, ReadWord(a, pos + 1).value;
      assert ReadWord(b, pos) == Some(t) && ReadWord(b, pos + 1) == Some(c);
      if c != 0 && (t == 1 || t == 2) {
        UpdatesAgree(a, b, myid, pos + 2, c, users, from);
      } else if c != 0 && t == 3 {
        RemovesAgree(a, b, pos + 2, c, users, mode, from);
      }
    }
  }

  lemma {:induction false} UpdatesAgree(a: seq<Byte>, b: seq<Byte>, myid: int, pos: nat, n: nat, users: Store, from: nat)
    requires |a| == |b| && from <= pos
    requires forall i: nat :: from <= i ==> ReadWord(a, i) == ReadWord(b, i)
    ensures DecodeUpdates(a, myid, pos, n, users) == DecodeUpdates(b, myid, pos, n, users)
    decreases n
  {
    if n > 0 {
      var r0, r1, r2 := ReadWord(a, pos), ReadWord(a, pos + 1), ReadWord(a, pos + 2);
      assert r0 == ReadWord(b, pos) && r1 == ReadWord(b, pos + 1) && r2 == ReadWord(b, pos + 2);
      if 4 * (pos + 3) <= |a| {
        UpdatesAgree(a, b, myid, pos + 3, n - 1, Upserted(users, myid, r0.value, Position(r1.value, r2.value)), from);
      }
    }
  }

  lemma {:induction false} RemovesAgree(a: seq<Byte>, b: seq<Byte>, pos: nat, n: nat, users: Store, mode: RemoveMode, from: nat)
    requires |a| == |b| && from <= pos
    requires forall i: nat :: from <= i ==> ReadWord(a, i) == ReadWord(b, i)
    ensures DecodeRemoves(a, pos, n, users, mode) == DecodeRemoves(b, pos, n, users, mode)
    decreases n
  {
    if n > 0 && ReadWord(a, pos).Some? {
      RemovesAgree(a, b, pos + 1, n - 1, Removed(users, ReadWord(a, pos).value), mode, from);
    }
  }

  // ---- the outbound position frame ----

  /** The 8-byte frame the send callback writes: x at offset 0, y at offset 4, both little-endian. */
  function OutboundFrame(x: Word, y: Word): (r: seq<Byte>)
    ensures |r| == 8
    ensures ReadWord(r, 0) == Some(x) && ReadWord(r, 1) == Some(y)
  {
    LeBytes(x) + LeBytes(y)
  }

  // ---- the client object ----

  /** `this.socket`: null, or a WebSocket in some `readyState` (1 is OPEN). */
  datatype Socket = NoSocket | Live(readyState: nat)

  /** A parsed JSON control message: the fields `myid` and `heartbeat`, when present. */
  datatype Control = Control(myid: Option<int>, heartbeat: Option<bool>)

  /** The reply to a heartbeat. */
  const HeartbeatReply: string := "{\"heartbeat\":true}"

  /** The sentinel of `queueMyPositionTimeout` when no send is scheduled. */
  const NoTimeout: int := -1

  class CursorParty {
    var socket: Socket
    var myid: int
    var users: Store
    var queueMyPositionTimeout: int
    /** The number of scheduled send callbacks that have not yet run. */
    var pendingSends: nat

    /** At most one send is pending, and while one is, the sentinel is not set. */
    predicate Valid()
      reads this
    {
      pendingSends <= 1 && (pendingSends == 1 ==> queueMyPositionTimeout != NoTimeout)
    }

    /** The object's initial fields, with the socket `reconnect` assigned. */
    constructor (s: Socket)
      ensures Valid()
      ensures socket == s && myid == 0 && users == map[]
      ensures queueMyPositionTimeout == NoTimeout && pendingSends == 0
    {
      socket := s;
      myid := 0;
      users := map[];
      queueMyPositionTimeout := NoTimeout;
      pendingSends := 0;
    }

    /** `updateUserPosition`. */
    method UpdateUserPosition(id: Id, p: Position)
      modifies this`users
      ensures users == Upserted(old(users), myid, id, p)
    {
      if id == myid {
        return;
      }
      users := users[id := p];
    }

    /** `removeUser`: the id is deleted, then the lookup of its div throws when it has none. */
    method RemoveUser(id: Id) returns (threw: bool)
      modifies this`users
      ensures users == Removed(old(users), id)
      ensures threw <==> id !in old(users)
    {
      threw := id !in users;
      users := map k | k in users && k != id :: users[k];
    }

    /**
     * `handleMessageBinary`: the word cursor `pos` runs over the buffer while
     * `pos < byteLength / 4`; a throw ends the handler with the changes made so far.
     */
    method HandleMessageBinary(buf: seq<Byte>) returns (threw: bool)
      modifies this`users
      ensures Decoded(users, threw) == DecodeFrom(buf, myid, 0, old(users), AsWritten)
    {
      var pos: nat := 0;
      while 4 * pos < |buf|
        invariant DecodeFrom(buf, myid, pos, users, AsWritten) == DecodeFrom(buf, myid, 0, old(users), AsWritten)
        decreases |buf| - 4 * pos
      {
        pos, threw := HandleRecord(buf, pos);
        if threw {
          return;
        }
      }
      threw := false;
    }

    /** The body of the loop of `handleMessageBinary`: one header and its payload. */
    method HandleRecord(buf: seq<Byte>, start: nat) returns (pos: nat, threw: bool)
      modifies this`users
      ensures Progress(users, pos, threw) == DecodeRecord(buf, myid, start, old(users), AsWritten)
    {
      // reading `type` or `count` past the end throws
      if |buf| < 4 * (start + 2) {
        return start, true;
      }
      var t, count := ReadWord(buf, start).value, ReadWord(buf, start + 1).value;
      pos, threw := start + 2, false;
      if count == 0 {
        return;
      }
      if t == 1 || t == 2 {
        pos, threw := HandleUpdateRecord(buf, pos, count);
      } else if t == 3 {
        pos, threw := HandleRemoveRecord(buf, pos, count);
      }
    }

    /** The counted loop over the triples of a type-1 or type-2 record. */
    method HandleUpdateRecord(buf: seq<Byte>, start: nat, count: nat) returns (pos: nat, threw: bool)
      modifies this`users
      ensures Progress(users, pos, threw) == DecodeUpdates(buf, myid, start, count, old(users))
    {
      pos := start;
      var left := count;
      ghost var me := myid;
      ghost var goal := DecodeUpdates(buf, me, start, count, users);
      while left > 0
        invariant me == myid
        invariant DecodeUpdates(buf, me, pos, left, users) == goal
      {
        // the three reads throw, with nothing yet changed, unless three words remain
        if |buf| < 4 * (pos + 3) {
          UpdatesShort(buf, me, pos, left, users);
          return pos, true;
        }
        pos := ApplyTriple(buf, pos, left);
        left := left - 1;
      }
      threw := false;
    }

    /** One pass of that loop: read an id and two coordinates, then `updateUserPosition`. */
    method ApplyTriple(buf: seq<Byte>, pos: nat, ghost left: nat) returns (next: nat)
      requires left > 0 && 4 * (pos + 3) <= |buf|
      modifies this`users
      ensures next == pos + 3
      ensures DecodeUpdates(buf, myid, next, left - 1, users) == DecodeUpdates(buf, myid, pos, left, old(users))
    {
      var id, x, y := ReadWord(buf, pos).value, ReadWord(buf, pos + 1).value, ReadWord(buf, pos + 2).value;
      UpdatesStep(buf, myid, pos, left, users, id, x, y);
      UpdateUserPosition(id, Position(x, y));
      next := pos + 3;
    }

    /** The counted loop over the ids of a type-3 record. */
    method HandleRemoveRecord(buf: seq<Byte>, start: nat, count: nat) returns (pos: nat, threw: bool)
      modifies this`users
      ensures Progress(users, pos, threw) == DecodeRemoves(buf, start, count, old(users), AsWritten)
    {
      pos := start;
      var i := 0;
      while i < count
        invariant i <= count && pos == start + i
        invariant DecodeRemoves(buf, pos, count - i, users, AsWritten) == DecodeRemoves(buf, start, count, old(users), AsWritten)
      {
        var id := ReadWord(buf, pos);
        if id.None? {
          return pos, true;
        }
        if id.value in users {
          RemovesStep(buf, pos, count - i, users, AsWritten, id.value);
        }
        var failed := RemoveUser(id.value);
        if failed {
          return pos, true;
        }
        pos := pos + 1;
        i := i + 1;
      }
      threw := false;
    }

    /**
     * `handleMessageJSON`: a truthy `myid` sets the local id; otherwise a
     * truthy `heartbeat` is answered on the socket, which throws when there is none.
     */
    method HandleMessageJson(msg: Control) returns (reply: Option<string>, threw: bool)
      modifies this`myid
      ensures msg.myid.Some? && msg.myid.value != 0 ==> myid == msg.myid.value && reply == None && !threw
      ensures !(msg.myid.Some? && msg.myid.value != 0) ==> myid == old(myid)
      ensures !(msg.myid.Some? && msg.myid.value != 0) && msg.heartbeat == Some(true) ==>
        if socket.Live? then reply == Some(HeartbeatReply) && !threw else reply == None && threw
      ensures !(msg.myid.Some? && msg.myid.value != 0) && msg.heartbeat != Some(true) ==> reply == None && !threw
    {
      reply, threw := None, false;
      if msg.myid.Some? && msg.myid.value != 0 {
        myid := msg.myid.value;
      } else if msg.heartbeat == Some(true) {
        if socket.NoSocket? {
          threw := true;
        } else {
          reply := Some(HeartbeatReply);
        }
      }
    }

    /** `handleClose`: the pending send is cancelled, the sentinel restored and the store emptied. */
    method HandleClose()
      modifies this`queueMyPositionTimeout, this`pendingSends, this`users
      ensures Valid()
      ensures queueMyPositionTimeout == NoTimeout && pendingSends == 0 && users == map[]
    {
      pendingSends := 0;
      queueMyPositionTimeout := NoTimeout;
      users := map[];
    }

    /**
     * `queueMyPosition`: a send is scheduled, under the timer `handle`, only
     * when the socket is open and none is pending; so at most one ever is.
     */
    method QueueMyPosition(handle: int)
      requires Valid()
      requires handle > 0
      modifies this`queueMyPositionTimeout, this`pendingSends
      ensures Valid()
      ensures old(socket) == Live(1) && old(queueMyPositionTimeout) == NoTimeout ==>
        queueMyPositionTimeout == handle && pendingSends == 1
      ensures !(old(socket) == Live(1) && old(queueMyPositionTimeout) == NoTimeout) ==>
        queueMyPositionTimeout == old(queueMyPositionTimeout) && pendingSends == old(pendingSends)
    {
      if socket.Live? && socket.readyState == 1 && queueMyPositionTimeout == NoTimeout {
        queueMyPositionTimeout := handle;
        pendingSends := pendingSends + 1;
      }
    }

    /**
     * The callback `queueMyPosition` schedules, with the sample `(x, y)` as
     * float words: with no socket it does nothing, leaving the sentinel set;
     * otherwise it restores the sentinel and sends the 8-byte frame.
     */
    method SendQueuedPosition(x: Word, y: Word) returns (frame: Option<seq<Byte>>)
      requires Valid()
      requires pendingSends == 1
      modifies this`queueMyPositionTimeout, this`pendingSends
      ensures Valid() && pendingSends == 0
      ensures socket.NoSocket? ==> frame == None && queueMyPositionTimeout == old(queueMyPositionTimeout)
      ensures socket.Live? ==> frame == Some(OutboundFrame(x, y)) && queueMyPositionTimeout == NoTimeout
    {
      pendingSends := 0;
      if socket.NoSocket? {
        return None;
      }
      queueMyPositionTimeout := NoTimeout;
      frame := Some(LeBytes(x) + LeBytes(y));
    }
  }
}
