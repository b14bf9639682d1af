/**
 * What the client makes of what the server writes: decoding each binary
 * message of src/main.rs with the decoder of public/cursors2.js applies the
 * queued updates, except the recipient's own, and then the queued removes.
 */
module Protocol {
  import opened Wrappers
  import opened Wire
  import opened Server
  import opened Client

  /** The positions a client learns from the triples of `ids`: every one but its own. */
  function Learned(ids: seq<Id>, m: map<Id, Position>, myid: int): map<Id, Position>
    requires forall id :: id in ids ==> id in m
  {
    map id | id in ids && id != myid :: m[id]
  }

  /** The queued updates other than the recipient's own. */
  function Others(updates: map<Id, Position>, myid: int): map<Id, Position>
  {
    map id | id in updates && id != myid :: updates[id]
  }

  /** An update record when there are triples, then a remove record when there are ids. */
  function Framed(kept: seq<Id>, m: map<Id, Position>, removes: seq<Id>): seq<Word>
    requires forall id :: id in kept ==> id in m
  {
    (if kept != [] then UpdateRecord(kept, |kept|, m) else [])
    + (if removes != [] then RemoveRecord(removes) else [])
  }

  // ---- decoding the records the server writes ----

  /** `buf` holds the words `ws`, as `WordsToBytes` writes them. */
  ghost predicate Carries(buf: seq<Byte>, ws: seq<Word>)
  {
    && |buf| == 4 * |ws|
    && forall i: nat {:trigger ReadWord(buf, i)} :: ReadWord(buf, i) == if i < |ws| then Some(ws[i]) else None
  }

  lemma CarriesWords(ws: seq<Word>)
    ensures Carries(WordsToBytes(ws), ws)
  {
    forall i: nat ensures ReadWord(WordsToBytes(ws), i) == if i < |ws| then Some(ws[i]) else None {
      ReadWordOfWords(ws, i);
    }
  }

  lemma LearnedCons(users: Store, ids: seq<Id>, m: map<Id, Position>, myid: int)
    requires ids != [] && forall id :: id in ids ==> id in m
    ensures Upserted(users, myid, ids[0], m[ids[0]]) + Learned(ids[1..], m, myid) == users + Learned(ids, m, myid)
  {
    var l := Upserted(users, myid, ids[0], m[ids[0]]) + Learned(ids[1..], m, myid);
    var r := users + Learned(ids, m, myid);
    forall k
      ensures k in l <==> k in r
      ensures k in l ==> l[k] == r[k]
    {
      if k in ids[1..] {
        assert k in ids;
      }
    }
  }

  /** The first triple of some entries, and the entries after it. */
  lemma EntriesHead(ws: seq<Word>, pos: nat, ids: seq<Id>, m: map<Id, Position>)
    requires forall id :: id in ids ==> id in m
    requires ids != []
    requires pos + 3 * |ids| <= |ws|
    requires ws[pos .. pos + 3 * |ids|] == Entries(ids, m)
    ensures ws[pos] == ids[0] && ws[pos + 1] == m[ids[0]].x && ws[pos + 2] == m[ids[0]].y
    ensures ws[pos + 3 .. pos + 3 * |ids|] == Entries(ids[1..], m)
  {
    var rest := Entries(ids[1..], m);
    var e := Entries(ids, m);
    var s := ws[pos .. pos + 3 * |ids|];
    assert e == [ids[0], m[ids[0]].x, m[ids[0]].y] + rest;
    assert e[0] == ids[0] && e[1] == m[ids[0]].x && e[2] == m[ids[0]].y;
    assert s[0] == ws[pos] && s[1] == ws[pos + 1] && s[2] == ws[pos + 2];
    assert e[3..] == rest;
    assert s[3..] == ws[pos + 3 .. pos + 3 * |ids|];
  }

  /** The triples of `ids` at word `pos` upsert every id but the local one, in order, and consume `3 |ids|` words. */
  lemma {:induction false} UpdatesOfEntries(buf: seq<Byte>, ws: seq<Word>, pos: nat, ids: seq<Id>, m: map<Id, Position>, users: Store, myid: int)
    requires Carries(buf, ws)
    requires forall id :: id in ids ==> id in m
    requires pos + 3 * |ids| <= |ws|
    requires ws[pos .. pos + 3 * |ids|] == Entries(ids, m)
    ensures DecodeUpdates(buf, myid, pos, |ids|, users)
         == Progress(users + Learned(ids, m, myid), pos + 3 * |ids|, false)
    decreases |ids|
  {
    if ids == [] {
      assert Learned(ids, m, myid) == map[];
      assert users + map[] == users;
    } else {
      var id, p := ids[0], m[ids[0]];
      EntriesHead(ws, pos, ids, m);
      UpdatesStep(buf, myid, pos, |ids|, users, id, p.x, p.y);
      UpdatesOfEntries(buf, ws, pos + 3, ids[1..], m, Upserted(users, myid, id, p), myid);
      LearnedCons(users, ids, m, myid);
    }
  }

  /** After deleting the first of distinct known ids, the rest are distinct and still known. */
  lemma RemovesTail(ids: seq<Id>, users: Store)
    requires ids != []
    requires Distinct(ids) && forall i :: 0 <= i < |ids| ==> ids[i] in users
    ensures Distinct(ids[1..]) && forall i :: 0 <= i < |ids[1..]| ==> ids[1..][i] in Removed(users, ids[0])
  {
    forall i | 0 <= i < |ids[1..]|
      ensures ids[1..][i] in Removed(users, ids[0])
    {
      assert ids[1..][i] == ids[i + 1] != ids[0];
    }
    forall i, j | 0 <= i < j < |ids[1..]| ensures ids[1..][i] != ids[1..][j] {
      assert ids[1..][i] == ids[i + 1] && ids[1..][j] == ids[j + 1];
    }
  }

  /** Deleting the first id, then the rest, deletes them all. */
  lemma RemovedCons(ids: seq<Id>, users: Store)
    requires ids != []
    ensures Removed(users, ids[0]) - Elems(ids[1..]) == users - Elems(ids)
  {
    assert Elems(ids) == {ids[0]} + Elems(ids[1..]) by {
      forall k ensures k in Elems(ids) <==> k == ids[0] || k in Elems(ids[1..]) {
        if k in ids && k != ids[0] {
          var i :| 0 <= i < |ids| && ids[i] == k;
          assert ids[1..][i - 1] == k;
        }
      }
    }
  }

  /**
   * The ids of a remove record at word `pos` are deleted and consume `|ids|`
   * words; as written this needs each id to have a cursor, tolerantly nothing.
   */
  lemma {:induction false} RemovesOfIds(buf: seq<Byte>, ws: seq<Word>, pos: nat, ids: seq<Id>, users: Store, mode: RemoveMode)
    requires Carries(buf, ws)
    requires pos + |ids| <= |ws|
    requires ws[pos .. pos + |ids|] == ids
    requires mode == AsWritten ==> Distinct(ids) && forall i :: 0 <= i < |ids| ==> ids[i] in users
    ensures DecodeRemoves(buf, pos, |ids|, users, mode) == Progress(users - Elems(ids), pos + |ids|, false)
    decreases |ids|
  {
    if ids == [] {
      assert users - Elems(ids) == users;
    } else {
      assert ws[pos] == ids[0];
      assert ws[pos + 1 .. pos + |ids|] == ids[1..];
      RemovesStep(buf, pos, |ids|, users, mode, ids[0]);
      if mode == AsWritten {
        RemovesTail(ids, users);
      }
      RemovesOfIds(buf, ws, pos + 1, ids[1..], Removed(users, ids[0]), mode);
      RemovedCons(ids, users);
    }
  }

  /** A header `(2, c)` with `c` nonzero starts `c` triples. */
  lemma UpdatesHeader(buf: seq<Byte>, myid: int, q: nat, c: Word, users: Store, mode: RemoveMode)
    requires ReadWord(buf, q) == Some(UpdateType) && ReadWord(buf, q + 1) == Some(c) && c != 0
    ensures DecodeRecord(buf, myid, q, users, mode) == DecodeUpdates(buf, myid, q + 2, c, users)
  {
  }

  /** A header `(3, c)` with `c` nonzero starts `c` ids. */
  lemma RemovesHeader(buf: seq<Byte>, myid: int, q: nat, c: Word, users: Store, mode: RemoveMode)
    requires ReadWord(buf, q) == Some(RemoveType) && ReadWord(buf, q + 1) == Some(c) && c != 0
    ensures DecodeRecord(buf, myid, q, users, mode) == DecodeRemoves(buf, q + 2, c, users, mode)
  {
  }

  /** A record decoded without a throw hands the rest of the buffer on to the next one. */
  lemma FromStep(buf: seq<Byte>, myid: int, q: nat, users: Store, mode: RemoveMode, next: nat, after: Store)
    requires 4 * q < |buf|
    requires DecodeRecord(buf, myid, q, users, mode) == Progress(after, next, false)
    ensures DecodeFrom(buf, myid, q, users, mode) == DecodeFrom(buf, myid, next, after, mode)
  {
  }

  /** The words of an update record found at word `q`: its header, then its triples. */
  lemma UpdateRecordAt(ws: seq<Word>, q: nat, kept: seq<Id>, m: map<Id, Position>)
    requires forall id :: id in kept ==> id in m
    requires |kept| < 0x1_0000_0000
    requires q + 2 + 3 * |kept| <= |ws|
    requires ws[q .. q + 2 + 3 * |kept|] == UpdateRecord(kept, |kept|, m)
    ensures ws[q] == UpdateType && ws[q + 1] == |kept|
    ensures ws[q + 2 .. q + 2 + 3 * |kept|] == Entries(kept, m)
  {
    var rec := UpdateRecord(kept, |kept|, m);
    assert rec == [UpdateType, U32(|kept|)] + Entries(kept, m);
    assert ws[q] == rec[0] && ws[q + 1] == rec[1];
    assert ws[q + 2 .. q + 2 + 3 * |kept|] == rec[2..];
  }

  /** A whole update record at word `q`. */
  lemma UpdateRecordStep(buf: seq<Byte>, ws: seq<Word>, q: nat, kept: seq<Id>, m: map<Id, Position>, users: Store, myid: int, mode: RemoveMode)
    requires Carries(buf, ws)
    requires forall id :: id in kept ==> id in m
    requires kept != [] && |kept| < 0x1_0000_0000
    requires q + 2 + 3 * |kept| <= |ws|
    requires ws[q] == UpdateType && ws[q + 1] == |kept|
    requires ws[q + 2 .. q + 2 + 3 * |kept|] == Entries(kept, m)
    ensures DecodeRecord(buf, myid, q, users, mode)
         == Progress(users + Learned(kept, m, myid), q + 2 + 3 * |kept|, false)
  {
    assert ReadWord(buf, q) == Some(UpdateType) && ReadWord(buf, q + 1) == Some(|kept|);
    UpdatesHeader(buf, myid, q, |kept|, users, mode);
    UpdatesOfEntries(buf, ws, q + 2, kept, m, users, myid);
  }

  /** A whole remove record at word `q`. */
  lemma RemoveRecordStep(buf: seq<Byte>, ws: seq<Word>, q: nat, removes: seq<Id>, users: Store, myid: int, mode: RemoveMode)
    requires Carries(buf, ws)
    requires removes != [] && |removes| < 0x1_0000_0000
    requires q + 2 + |removes| <= |ws|
    requires ws[q] == RemoveType && ws[q + 1] == |removes|
    requires ws[q + 2 .. q + 2 + |removes|] == removes
    requires mode == AsWritten ==> Distinct(removes) && forall i :: 0 <= i < |removes| ==> removes[i] in users
    ensures DecodeRecord(buf, myid, q, users, mode)
         == Progress(users - Elems(removes), q + 2 + |removes|, false)
  {
    assert ReadWord(buf, q) == Some(RemoveType) && ReadWord(buf, q + 1) == Some(|removes|);
    RemovesHeader(buf, myid, q, |removes|, users, mode);
    RemovesOfIds(buf, ws, q + 2, removes, users, mode);
  }

  /** The update record of `Framed`, when there is one, comes first. */
  lemma FramedUpdates(kept: seq<Id>, m: map<Id, Position>, removes: seq<Id>)
    requires forall id :: id in kept ==> id in m
    requires kept != [] && |kept| < 0x1_0000_0000
    ensures var ws := Framed(kept, m, removes);
      && 2 + 3 * |kept| <= |ws|
      && ws[0] == UpdateType && ws[1] == |kept| && ws[2 .. 2 + 3 * |kept|] == Entries(kept, m)
  {
    var ws := Framed(kept, m, removes);
    var ups := UpdateRecord(kept, |kept|, m);
    if removes != [] {
      assert ws == ups + RemoveRecord(removes);
    } else {
      assert ws == ups;
    }
    assert ws[0 .. 2 + 3 * |kept|] == ups;
    UpdateRecordAt(ws, 0, kept, m);
  }

  /** What follows the update record of `Framed`, if any, is its remove record. */
  lemma FramedTail(kept: seq<Id>, m: map<Id, Position>, removes: seq<Id>, q: nat)
    requires forall id :: id in kept ==> id in m
    requires removes != []
    requires q == if kept != [] then 2 + 3 * |kept| else 0
    ensures |Framed(kept, m, removes)| == q + 2 + |removes|
    ensures Framed(kept, m, removes)[q..] == RemoveRecord(removes)
  {
    var ups: seq<Word> := if kept != [] then UpdateRecord(kept, |kept|, m) else [];
    var rms := RemoveRecord(removes);
    assert |ups| == q;
    assert Framed(kept, m, removes) == ups + rms;
    assert (ups + rms)[|ups|..] == rms;
  }

  /** The remove record of `Framed`, when there is one, ends it, at word `q`. */
  lemma FramedRemoves(kept: seq<Id>, m: map<Id, Position>, removes: seq<Id>, q: nat)
    requires forall id :: id in kept ==> id in m
    requires removes != [] && |removes| < 0x1_0000_0000
    requires q == if kept != [] then 2 + 3 * |kept| else 0
    ensures var ws := Framed(kept, m, removes);
      && |ws| == q + 2 + |removes|
      && ws[q] == RemoveType && ws[q + 1] == |removes| && ws[q + 2 .. |ws|] == removes
  {
    FramedTail(kept, m, removes, q);
    RemoveRecordEnds(Framed(kept, m, removes), q, removes);
  }

  /** The words of a remove record that ends a sequence at word `q`: its header, then its ids. */
  lemma RemoveRecordEnds(ws: seq<Word>, q: nat, removes: seq<Id>)
    requires |removes| < 0x1_0000_0000
    requires |ws| == q + 2 + |removes|
    requires ws[q..] == RemoveRecord(removes)
    ensures ws[q] == RemoveType && ws[q + 1] == |removes| && ws[q + 2 .. |ws|] == removes
  {
    var tail := ws[q..];
    assert ws[q] == tail[0] && ws[q + 1] == tail[1];
    assert ws[q + 2 .. |ws|] == tail[2..];
  }

  /** Decoding an update record at word 0 and a remove record at word `q`: the updates, then the removes, and no throw. */
  lemma DecodeFramedWords(buf: seq<Byte>, ws: seq<Word>, q: nat, kept: seq<Id>, m: map<Id, Position>, removes: seq<Id>,
                          users: Store, myid: int, mode: RemoveMode)
    requires forall id :: id in kept ==> id in m
    requires Carries(buf, ws)
    requires |kept| < 0x1_0000_0000 && |removes| < 0x1_0000_0000
    requires q == if kept != [] then 2 + 3 * |kept| else 0
    requires |ws| == q + (if removes != [] then 2 + |removes| else 0)
    requires kept != [] ==> ws[0] == UpdateType && ws[1] == |kept| && ws[2 .. q] == Entries(kept, m)
    requires removes != [] ==> ws[q] == RemoveType && ws[q + 1] == |removes| && ws[q + 2 .. |ws|] == removes
    requires mode == AsWritten ==>
      Distinct(removes) && forall i :: 0 <= i < |removes| ==> removes[i] in users + Learned(kept, m, myid)
    ensures DecodeFrom(buf, myid, 0, users, mode) == Decoded((users + Learned(kept, m, myid)) - Elems(removes), false)
  {
    var u1 := users + Learned(kept, m, myid);
    if kept != [] {
      UpdateRecordStep(buf, ws, 0, kept, m, users, myid, mode);
      FromStep(buf, myid, 0, users, mode, q, u1);
    } else {
      assert Learned(kept, m, myid) == map[];
      assert u1 == users;
    }
    if removes != [] {
      RemoveRecordStep(buf, ws, q, removes, u1, myid, mode);
      FromStep(buf, myid, q, u1, mode, |ws|, u1 - Elems(removes));
    } else {
      assert u1 - Elems(removes) == u1;
    }
  }

  /** The same, on the bytes the server writes. */
  lemma DecodeFramed(kept: seq<Id>, m: map<Id, Position>, removes: seq<Id>, users: Store, myid: int, mode: RemoveMode)
    requires forall id :: id in kept ==> id in m
    requires |kept| < 0x1_0000_0000 && |removes| < 0x1_0000_0000
    requires mode == AsWritten ==>
      Distinct(removes) && forall i :: 0 <= i < |removes| ==> removes[i] in users + Learned(kept, m, myid)
    ensures DecodeFrom(WordsToBytes(Framed(kept, m, removes)), myid, 0, users, mode)
         == Decoded((users + Learned(kept, m, myid)) - Elems(removes), false)
  {
    var ws := Framed(kept, m, removes);
    var q := if kept != [] then 2 + 3 * |kept| else 0;
    CarriesWords(ws);
    if kept != [] {
      FramedUpdates(kept, m, removes);
    }
    if removes != [] {
      FramedRemoves(kept, m, removes, q);
    } else {
      assert ws == if kept != [] then UpdateRecord(kept, |kept|, m) else [];
    }
    DecodeFramedWords(WordsToBytes(ws), ws, q, kept, m, removes, users, myid, mode);
  }

  // ---- the messages of the server ----

  /** The triples of an enumeration tell a client every entry but its own. */
  lemma LearnedOrder(order: seq<Id>, m: map<Id, Position>, myid: int)
    requires Enumerates(order, m.Keys)
    ensures Learned(order, m, myid) == Others(m, myid)
  {
  }

  /** So do the triples of the enumeration without the client's own id. */
  lemma LearnedWithout(order: seq<Id>, m: map<Id, Position>, skip: Id)
    requires Enumerates(order, m.Keys)
    ensures forall id :: id in Without(order, skip) ==> id in m
    ensures Learned(Without(order, skip), m, skip) == Others(m, skip)
  {
  }

  /** The message for the idle users is the update record of all queued updates, then the remove record. */
  lemma IdleMsgIsFramed(order: seq<Id>, updates: map<Id, Position>, removes: seq<Id>)
    requires Enumerates(order, updates.Keys)
    ensures IdleMsgWords(order, updates, removes) == Framed(order, updates, removes)
  {
    EnumeratesCard(order, updates.Keys);
  }

  /**
   * The message for updated user `skip` is the update record of the others'
   * updates, then the remove record; there is none exactly when both are empty.
   */
  lemma UpdatedMsgIsFramed(order: seq<Id>, updates: map<Id, Position>, removes: seq<Id>, skip: Id)
    requires Enumerates(order, updates.Keys)
    requires skip in updates
    ensures UpdatedUserMsgWords(order, updates, removes, skip).None? <==> Others(updates, skip) == map[] && removes == []
    ensures UpdatedUserMsgWords(order, updates, removes, skip).Some? ==>
      UpdatedUserMsgWords(order, updates, removes, skip).value == Framed(Without(order, skip), updates, removes)
  {
    UpdatedUserMsgCount(order, updates, skip);
    var kept := Without(order, skip);
    if kept != [] {
      assert kept[0] in Others(updates, skip);
    }
    if Others(updates, skip) != map[] {
      var k :| k in Others(updates, skip);
      assert k in kept;
    }
  }

  /**
   * Round trip of the idle message: the recipient applies every queued update
   * except its own, then deletes every queued remove.
   */
  lemma IdleMsgRoundTrip(order: seq<Id>, updates: map<Id, Position>, removes: seq<Id>, users: Store, myid: int, mode: RemoveMode)
    requires Enumerates(order, updates.Keys)
    requires |updates| < 0x1_0000_0000 && |removes| < 0x1_0000_0000
    requires mode == AsWritten ==>
      Distinct(removes) && forall i :: 0 <= i < |removes| ==> removes[i] in users + Others(updates, myid)
    ensures DecodeFrom(WordsToBytes(IdleMsgWords(order, updates, removes)), myid, 0, users, mode)
         == Decoded((users + Others(updates, myid)) - Elems(removes), false)
  {
    EnumeratesCard(order, updates.Keys);
    IdleMsgIsFramed(order, updates, removes);
    LearnedOrder(order, updates, myid);
    DecodeFramed(order, updates, removes, users, myid, mode);
  }

  /**
   * Round trip of an updated user's message: it learns every other queued
   * update and the queued removes, and is sent nothing exactly when there are none.
   */
  lemma UpdatedMsgRoundTrip(order: seq<Id>, updates: map<Id, Position>, removes: seq<Id>, skip: Id, users: Store, mode: RemoveMode)
    requires Enumerates(order, updates.Keys)
    requires skip in updates
    requires |updates| < 0x1_0000_0000 && |removes| < 0x1_0000_0000
    requires mode == AsWritten ==>
      Distinct(removes) && forall i :: 0 <= i < |removes| ==> removes[i] in users + Others(updates, skip)
    ensures UpdatedUserMsgWords(order, updates, removes, skip).None? <==> Others(updates, skip) == map[] && removes == []
    ensures UpdatedUserMsgWords(order, updates, removes, skip).Some? ==>
      DecodeFrom(WordsToBytes(UpdatedUserMsgWords(order, updates, removes, skip).value), skip, 0, users, mode)
        == Decoded((users + Others(updates, skip)) - Elems(removes), false)
  {
    UpdatedMsgIsFramed(order, updates, removes, skip);
    UpdatedUserMsgCount(order, updates, skip);
    EnumeratesCard(order, updates.Keys);
    LearnedWithout(order, updates, skip);
    DecodeFramed(Without(order, skip), updates, removes, users, skip, mode);
  }

  /**
   * Round trip of the join snapshot: a newcomer with an empty store, its own
   * id not among the users, ends with every user at its last broadcast position.
   */
  lemma SnapshotRoundTrip(order: seq<Id>, users: map<Id, User>, newId: Id, mode: RemoveMode)
    requires Enumerates(order, users.Keys)
    requires newId !in users
    requires 0 < |users| < 0x1_0000_0000
    ensures DecodeFrom(WordsToBytes(SnapshotWords(order, users)), newId, 0, map[], mode)
         == Decoded(LastPositions(users), false)
  {
    var last := LastPositions(users);
    EnumeratesCard(order, users.Keys);
    SnapshotIsFramed(order, users);
    DecodeFramed(order, last, [], map[], newId, mode);
    SnapshotLearned(order, users, newId);
  }

  /** The join snapshot is the update record of the last broadcast positions, with no remove record. */
  lemma SnapshotIsFramed(order: seq<Id>, users: map<Id, User>)
    requires Enumerates(order, users.Keys)
    requires 0 < |users|
    ensures SnapshotWords(order, users) == Framed(order, LastPositions(users), [])
  {
    EnumeratesCard(order, users.Keys);
    var last := LastPositions(users);
    assert Framed(order, last, []) == UpdateRecord(order, |order|, last) + [];
  }

  /** A newcomer learns every last broadcast position from the snapshot, and forgets nothing. */
  lemma SnapshotLearned(order: seq<Id>, users: map<Id, User>, newId: Id)
    requires Enumerates(order, users.Keys)
    requires newId !in users
    ensures forall id :: id in order ==> id in LastPositions(users)
    ensures (map[] + Learned(order, LastPositions(users), newId)) - Elems([]) == LastPositions(users)
  {
    var last := LastPositions(users);
    LearnedOrder(order, last, newId);
    assert Others(last, newId) == last;
    assert Elems([]) == {};
    assert (map[] + last) - {} == last;
  }

  /**
   * Round trip of a broadcast, for each recipient `rid`: what it is handed
   * decodes to its store with every other queued update and every queued
   * remove applied, and it is handed nothing exactly when there is nothing
   * to tell it.
   */
  lemma BroadcastRoundTrip(latestId: Word, users: map<Id, User>, updates: map<Id, Position>, removes: seq<Id>,
                           order: seq<Id>, rid: Id, store: Store, mode: RemoveMode)
    requires Inv(latestId, users, updates, removes)
    requires Enumerates(order, updates.Keys)
    requires |updates| != 0 || removes != []
    requires rid in users
    requires mode == AsWritten ==> forall i :: 0 <= i < |removes| ==> removes[i] in store + Others(updates, rid)
    ensures rid !in Deliveries(order, users, updates, removes) <==> Others(updates, rid) == map[] && removes == []
    ensures rid in Deliveries(order, users, updates, removes) ==>
      DecodeFrom(Deliveries(order, users, updates, removes)[rid], rid, 0, store, mode)
        == Decoded((store + Others(updates, rid)) - Elems(removes), false)
  {
    CountsFit(latestId, users, updates, removes);
    if rid in updates {
      UpdatedMsgRoundTrip(order, updates, removes, rid, store, mode);
    } else {
      assert Others(updates, rid) == updates;
      IdleMsgRoundTrip(order, updates, removes, store, rid, mode);
      if updates == map[] {
        assert |updates| == 0;
      }
    }
  }

  /** The frame the client sends is the one `Position::get` accepts, exactly when both words are in range. */
  lemma PositionFrameRoundTrip(x: Word, y: Word)
    ensures PositionGet(OutboundFrame(x, y))
         == if InUnitRange(x) && InUnitRange(y) then Ok(Position(x, y)) else Err(OutOfBoundsFloats)
  {
    var f := OutboundFrame(x, y);
    assert ReadWord(f, 0).value == x && ReadWord(f, 1).value == y;
  }

  // ---- truncated buffers and unknown removes ----

  /**
   * A buffer cut short: the first record applies its triple, the second
   * record's triple runs past the end and throws, and the first one's change stays.
   */
  lemma TruncatedBufferKeepsEarlier(x: Word, y: Word)
    ensures DecodeFrom(WordsToBytes([2, 1, 7, x, y, 2, 1, 8]), 0, 0, map[], AsWritten)
         == Decoded(map[7 := Position(x, y)], true)
  {
    var ws: seq<Word> := [2, 1, 7, x, y, 2, 1, 8];
    var buf := WordsToBytes(ws);
    forall i: nat | i < 8 ensures ReadWord(buf, i) == Some(ws[i]) {
      ReadWordOfWords(ws, i);
    }
    assert |buf| == 32;
    var m := map[7 := Position(x, y)];
    assert DecodeUpdates(buf, 0, 5, 0, m) == Progress(m, 5, false);
    assert Upserted(map[], 0, 7, Position(x, y)) == m;
    assert DecodeRecord(buf, 0, 0, map[], AsWritten) == Progress(m, 5, false);
    assert DecodeRecord(buf, 0, 5, m, AsWritten) == Progress(m, 7, true);
  }

  /**
   * As written, a remove record whose first id has no cursor throws at once:
   * the store is left as it was, whatever the later ids of the record name.
   */
  lemma UnknownRemoveThrows(id: Id, rest: seq<Id>, store: Store, myid: int)
    requires id !in store
    requires |rest| + 1 < 0x1_0000_0000
    ensures DecodeFrom(WordsToBytes(RemoveRecord([id] + rest)), myid, 0, store, AsWritten) == Decoded(store, true)
  {
    var ws := RemoveRecord([id] + rest);
    ReadWordOfWords(ws, 0);
    ReadWordOfWords(ws, 1);
    ReadWordOfWords(ws, 2);
    assert ws[0] == RemoveType && ws[1] == |rest| + 1 && ws[2] == id;
    assert DecodeRemoves(WordsToBytes(ws), 2, |rest| + 1, store, AsWritten) == Progress(store, 2, true);
  }

  /** With the lookup tolerated, the same record deletes every id it names and does not throw. */
  lemma TolerantRemoveDeletesAll(ids: seq<Id>, store: Store, myid: int)
    requires ids != [] && |ids| < 0x1_0000_0000
    ensures DecodeFrom(WordsToBytes(RemoveRecord(ids)), myid, 0, store, IgnoreUnknown) == Decoded(store - Elems(ids), false)
  {
    assert RemoveRecord(ids) == Framed([], map[], ids);
    DecodeFramed([], map[], ids, store, myid, IgnoreUnknown);
    assert store + Learned([], map[], myid) == store;
  }

  /** With no updates queued and one remove, the only user left is handed the bare remove record. */
  lemma LoneRemoveDelivery(rid: Id, gone: Id, u: User)
    ensures Deliveries([], map[rid := u], map[], [gone]) == map[rid := WordsToBytes(RemoveRecord([gone]))]
  {
    assert IdleMsgWords([], map[], [gone]) == RemoveRecord([gone]);
    assert MessageFor([], map[], [gone], rid) == Some(WordsToBytes(RemoveRecord([gone])));
  }

  /** Two users connect, neither moves. */
  method JoinTwo() returns (server: State)
    ensures fresh(server) && server.Valid()
    ensures server.users == map[1 := User(Position(0, 0), Position(0, 0)), 2 := User(Position(0, 0), Position(0, 0))]
    ensures server.queuedUpdates == map[] && server.queuedRemoves == []
  {
    server := new State();
    var none: seq<Id> := [];
    var first := server.Connect(none);
    assert server.users.Keys == {1};
    var present: seq<Id> := [1];
    assert Enumerates(present, server.users.Keys);
    var second := server.Connect(present);
  }

  /** The second user leaves without having moved: its remove is queued and nothing else. */
  method LeaveUnmoved() returns (server: State)
    ensures fresh(server) && server.Valid()
    ensures server.users == map[1 := User(Position(0, 0), Position(0, 0))]
    ensures server.queuedUpdates == map[] && server.queuedRemoves == [2]
  {
    server := JoinTwo();
    server.Remove(2);
  }

  /** The broadcast that follows hands the first user the bare remove record for the second. */
  method LeaverBroadcast() returns (bytes: seq<Byte>)
    ensures bytes == WordsToBytes(RemoveRecord([2]))
  {
    var server := LeaveUnmoved();
    var none: seq<Id> := [];
    var sent := server.BroadcastCursors(none);
    LoneRemoveDelivery(1, 2, User(Position(0, 0), Position(0, 0)));
    bytes := sent[1];
  }

  /**
   * A user joins after another and leaves without moving: the first user's
   * client was never told of it, and throws on the broadcast that removes it.
   */
  method UnseenLeaverThrows() returns (threw: bool)
    ensures threw
  {
    var bytes := LeaverBroadcast();
    var client := new CursorParty(Live(1));
    var reply, failed := client.HandleMessageJson(Control(Some(1), None));
    UnknownRemoveThrows(2, [], map[], 1);
    assert [2] + [] == [2];
    threw := client.HandleMessageBinary(bytes);
  }
}
