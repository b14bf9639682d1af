# cursor-party: the fan-out server and the browser decoder

This project models the two halves of cursor-party, a service that shares
mouse cursors between the visitors of a page. The server
(`src/main.rs`) is an actix `State` actor. It keeps:

- a table of connected users, each with the position it last queued and the
  position its peers were last told;
- a map of queued position updates;
- a list of queued removes;
- a counter from which ids are drawn.

A broadcast writes the queues to every user as binary messages. A message is
a sequence of records, each a `type:u32 count:u32` header followed by its
payload. Every word is little-endian:

- type 2 (type 1 means the same) carries `count` triples `(id, x, y)`;
- type 3 carries `count` ids.

The browser client (`public/cursors2.js`) decodes these messages into its
`users` map. It never stores its own id. It throttles its own outbound
8-byte position frame, so at most one send is pending at a time.

The model is split into these modules:

- `Wire`: bytes, words, the little-endian codec and `f32` bit patterns.
- `Server`: `Position::get`, the message builders as functions on words, and
  the `State` class with its handlers and builders as methods.
- `Client`: the decoder as functions on the buffer, and the `CursorParty`
  class with its handlers as methods.
- `Protocol`: the round-trip theorems between the two, the concrete
  scenario behind the finding below, and its corrected version.

An `f32` is modelled as the 32-bit word holding its IEEE 754 binary32 bit
pattern. The range test `(0.0..=1.0).contains` is stated exactly on bit
patterns, and so is `f32` equality: NaN equals nothing, and +0.0 equals
-0.0. `HashMap` and `Map` iteration order is an explicit `order: seq<Id>`
whose elements are the keys, each once. Every property holds for every such
order.

The decoder behaves as follows:

- A record of an unknown type with a nonzero count does not abort the
  buffer. The decoder consumes its two header words and reads the next word
  as a header.
- A read past the end of the buffer throws. Every change already applied
  from that buffer stays applied; the store is not rolled back.
- A buffer whose length is not a multiple of 4 is not rejected up front.
  The loop runs while a word starts before the end, and the first read that
  runs past the end throws.
- `removeUser` throws for an id that has no cursor, where a no-op would be
  expected, because the DOM lookup returns null (see Findings).

## Model

| member | source | states |
|---|---|---|
| Wire.U32 | src/main.rs:246 | the `as u32` cast of a length is the length itself whenever it is below 2^32 |
| Wire.LeWordOfLeBytes | src/main.rs:245-250 | reading four bytes as a little-endian word gives back the word `to_le_bytes` wrote |
| Wire.ReadWord | public/cursors2.js:242-243 | `getUint32(4 i, true)` yields a word exactly when four bytes remain at offset `4 i`, and throws otherwise |
| Wire.ReadWordOfWords | public/cursors2.js:242-243 | reading word `i` of an encoded word sequence gives its `i`-th word, and reading past its end throws |
| Wire.WordsToBytesAppend | src/main.rs:374-391 | appending to a `BytesMut` word by word encodes the concatenated words |
| Server.PositionGet | src/main.rs:59-71 | a frame whose length is not 8 is `BadMessageSize`; an 8-byte frame is `Ok` exactly when both LE words at bytes 0..4 and 4..8 are in 0.0..=1.0, and then it holds those words; otherwise it is `OutOfBoundsFloats` |
| Server.Without | src/main.rs:341-344 | the ids kept by the `continue` are exactly the ids of `order` other than `skip` |
| Server.WithoutDistinct | src/main.rs:340-344 | dropping `skip` from a duplicate-free enumeration keeps it duplicate-free and shortens it by one exactly when `skip` occurs |
| Server.UpdatedUserMsgCount | src/main.rs:337-348 | the count `len - 1` equals the number of triples written exactly when the skipped id is queued, and the skipped id is never written |
| Server.IdleMsgSize | src/main.rs:362-375 | the idle message has `(updates_len + removes_len) * 4` bytes, the size reserved for it |
| Server.SnapshotLayout | src/main.rs:241-253 | the join snapshot is one type-2 header with the number of users, then triple `k` names the `k`-th enumerated user and its last broadcast position; it has `(2 + 3n) * 4` bytes and names only existing users |
| Server.CountsFit | src/main.rs:246 | under the state invariant, queued updates are at most the users, and users plus queued removes are at most `latest_id`, so every `as u32` length is exact |
| Server.LastPositions | src/main.rs:247-251 | the snapshot's position table has exactly the users' ids |
| Server.JoinKeepsInv | src/main.rs:237-264 | the next id is not yet a user, and inserting it settled at (0, 0) with the counter raised keeps the state invariant |
| Server.Broadcasted | src/main.rs:314-318 | a broadcast keeps every user and every queued position, and it sets the last broadcast position to the queued one exactly for the updated users |
| Server.DeliveriesSplit | src/main.rs:294-327 | what the idle users receive together with what the updated users receive is the whole broadcast's delivery map |
| Server.BroadcastSettles | src/main.rs:313-331 | after a broadcast every user is settled, and the invariant holds with both queues empty |
| Server.State.constructor | src/main.rs:177-188 | `State::default`: id counter 0, no broadcast queued, empty tables and queues, invariant established |
| Server.State.QueueBroadcast | src/main.rs:272-286 | a broadcast is now due |
| Server.State.PositionUpdate | src/main.rs:208-220 | the user's queued position is always set; the id is queued exactly when the new position differs from the last broadcast one, holding that position; no other queued update changes; a broadcast is due when one was queued; the invariant is kept |
| Server.State.Remove | src/main.rs:224-234 | a live id leaves `users` and `queued_updates` and is appended to `queued_removes`, where it occurs exactly once, and a broadcast is due; an absent id changes nothing; the invariant is kept |
| Server.State.Connect | src/main.rs:235-270 | the new id is the incremented counter and was not a user, which discharges the `assert!`; the newcomer gets its `myid`, then the snapshot of the existing users only if there are any, and is inserted at (0, 0); at `u32::MAX` the increment overflows and nothing changes; the invariant is kept |
| Server.State.MakeJoinSnapshot | src/main.rs:241-253 | the loop writes the type-2 header with the user count, then each user in iteration order at its last broadcast position |
| Server.State.MakeMsgForIdleUsers | src/main.rs:361-393 | the message is the update record of all queued updates if any, then the remove record of all queued removes if any, and has the reserved size |
| Server.State.MakeMsgForUpdatedUser | src/main.rs:333-360 | the message is the update record without `skip` when more than one update is queued, then all removes when any are queued, and `None` when neither applies |
| Server.State.AppendUpdateRecord | src/main.rs:339-348 | the loop over `queued_updates` appends header `(2, count)` and one triple per id other than the skipped one, in iteration order |
| Server.State.AppendRemoveRecord | src/main.rs:353-357 | the loop over `queued_removes` appends header `(3, len)` and every id in order |
| Server.State.SendToIdle | src/main.rs:301-311 | every idle user, and no other user, is handed the same idle message |
| Server.State.SettleUpdated | src/main.rs:313-327 | every updated user is settled, and each receives its own message exactly when it has one |
| Server.State.SendAll | src/main.rs:294-327 | the two loops together settle the updated users and hand out the broadcast's deliveries |
| Server.State.Flush | src/main.rs:294-331 | after the early return: deliveries handed out, updated users settled, every user settled, queues emptied, flag cleared, invariant kept |
| Server.State.BroadcastCursors | src/main.rs:287-332 | with both queues empty nothing changes, not even the flag; otherwise the queues are emptied, the flag is cleared, every updated user's last broadcast position is its queued one, and the users receive the broadcast's deliveries |
| Client.Upserted | public/cursors2.js:207-217 | the local id leaves the store as it is; any other id ends up holding `p`; no key except `id` is added; the local id is never stored |
| Client.UpsertedKeepsOthers | public/cursors2.js:207-217 | an update of one id leaves every other entry as it was |
| Client.Removed | public/cursors2.js:233-234 | `users.delete(id)` removes `id` alone and keeps every other entry |
| Client.DecodeUpdates | public/cursors2.js:245-252 | the triples of an update record throw exactly when the buffer ends before the last of them; otherwise they consume 3 words each; the local id is never stored |
| Client.DecodeRemoves | public/cursors2.js:253-256 | the ids of a remove record consume one word each and only delete entries; with unknown ids tolerated, they throw exactly when the buffer ends before the last id |
| Client.DecodeRecord | public/cursors2.js:240-257 | a record that does not throw consumes at least its two header words and ends inside the buffer |
| Client.DecodeFrom | public/cursors2.js:237-259 | decoding a buffer never stores the local id |
| Client.ZeroCountHeader | public/cursors2.js:242-244 | a header with count 0 consumes exactly two words and changes nothing |
| Client.UnknownTypeHeader | public/cursors2.js:242-257 | a header of a type other than 1, 2 and 3 consumes exactly two words and changes nothing |
| Client.UpdatesShort | public/cursors2.js:248-250 | a triple cut off by the end of the buffer throws before anything of it is applied |
| Client.AddIsUpdate | public/cursors2.js:245 | buffers differing only in a header's type, 1 against 2, decode alike |
| Client.SuffixWordsAgree | public/cursors2.js:242-255 | buffers with equal bytes from word `k` on read the same words from `k` on |
| Client.FromAgree | public/cursors2.js:237-259 | buffers whose words agree from `from` on decode alike from any later word |
| Client.OutboundFrame | public/cursors2.js:225-228 | the outbound frame has 8 bytes, x the LE word at offset 0 and y the one at offset 4 |
| Client.CursorParty.constructor | public/cursors2.js:12-31 | the initial fields: `myid` 0, an empty `users`, the sentinel -1, nothing pending |
| Client.CursorParty.UpdateUserPosition | public/cursors2.js:207-217 | the store becomes the upsert of `(id, p)`, and the local id is ignored |
| Client.CursorParty.RemoveUser | public/cursors2.js:233-236 | the id is deleted, and the call throws exactly when the id had no cursor |
| Client.CursorParty.HandleMessageBinary | public/cursors2.js:237-259 | the loop over the word cursor leaves the store and the throw flag that `DecodeFrom` gives, from the store before the call |
| Client.CursorParty.HandleRecord | public/cursors2.js:242-257 | one pass over one header and its payload is `DecodeRecord` |
| Client.CursorParty.HandleUpdateRecord | public/cursors2.js:245-252 | the counted loop over the triples is `DecodeUpdates` |
| Client.CursorParty.ApplyTriple | public/cursors2.js:248-251 | one triple read and applied advances the decoding by one entry |
| Client.CursorParty.HandleRemoveRecord | public/cursors2.js:253-256 | the counted loop over the ids is `DecodeRemoves`, as written |
| Client.CursorParty.HandleMessageJson | public/cursors2.js:260-266 | a truthy `myid` sets the local id and nothing else happens; otherwise a truthy heartbeat is answered with `{"heartbeat":true}` (this throws without a socket); anything else does nothing |
| Client.CursorParty.HandleClose | public/cursors2.js:112-121 | the pending send is cancelled, the sentinel is -1 and the store is empty |
| Client.CursorParty.QueueMyPosition | public/cursors2.js:218-220 | a send is scheduled exactly when the socket is open and the sentinel is set, otherwise nothing changes, so at most one send is ever pending |
| Client.CursorParty.SendQueuedPosition | public/cursors2.js:220-230 | with no socket the callback does nothing and leaves the timeout set; otherwise it restores the sentinel and sends the 8-byte frame of the sample |
| Protocol.UpdatesOfEntries | public/cursors2.js:245-252 | decoding the triples of an enumeration upserts every entry but the local one and consumes three words per entry |
| Protocol.RemovesOfIds | public/cursors2.js:253-256 | decoding the ids of a remove record deletes them all; as written this needs every id to be distinct and to have a cursor |
| Protocol.DecodeFramed | public/cursors2.js:237-259 | an update record followed by a remove record decodes to the store with the entries learned and then the ids deleted, without a throw |
| Protocol.IdleMsgIsFramed | src/main.rs:361-393 | the idle message is the update record of all queued updates, then the remove record |
| Protocol.UpdatedMsgIsFramed | src/main.rs:333-360 | an updated user's message is the update record of the others' updates, then the remove record, and there is none exactly when both are empty |
| Protocol.IdleMsgRoundTrip | src/main.rs:376-391 | decoding the idle message applies every queued update except the recipient's own, then every queued remove |
| Protocol.UpdatedMsgRoundTrip | src/main.rs:337-358 | decoding an updated user's message applies every other queued update, then every queued remove |
| Protocol.SnapshotRoundTrip | src/main.rs:241-253 | a newcomer decoding the join snapshot into an empty store holds every existing user at its last broadcast position |
| Protocol.BroadcastRoundTrip | src/main.rs:287-332 | each user is handed nothing exactly when there is nothing to tell it, and what it is handed decodes to its store with every other queued update and every queued remove applied |
| Protocol.PositionFrameRoundTrip | public/cursors2.js:225-229 | the frame the client sends is accepted by `Position::get` exactly when both words are in range, and then yields them |
| Protocol.TruncatedBufferKeepsEarlier | public/cursors2.js:240-258 | in a buffer cut short, the first record's triple stays applied when the second record's read throws |
| Protocol.UnknownRemoveThrows | public/cursors2.js:233-236 | as written, a remove record whose first id has no cursor throws and applies none of its ids |
| Protocol.TolerantRemoveDeletesAll | public/cursors2.js:233-236 | with unknown ids tolerated, a remove record deletes every id it names and does not throw |
| Protocol.LoneRemoveDelivery | src/main.rs:301-311 | with no updates queued and one remove, the only remaining user is handed the bare remove record |
| Protocol.JoinTwo | src/main.rs:235-270 | two connects give users 1 and 2 at the origin with nothing queued |
| Protocol.LeaveUnmoved | src/main.rs:224-234 | the second user leaving without moving queues its remove and nothing else |
| Protocol.LeaverBroadcast | src/main.rs:287-332 | the broadcast that follows hands the first user the remove record for the second |
| Protocol.UnseenLeaverThrows | public/cursors2.js:233-236 | the first user's client, never told of the second user, throws on that remove record |

## Left out

- Timers and the clock are not modelled:
  - `queue_broadcast`'s `Instant` comparison, its `run_later` and `last_broadcast` are left out. `QueueBroadcast` only records that a broadcast is due. The environment calls `BroadcastCursors`, whether at once or after the interval.
  - `setTimeout` and `clearTimeout` are left out. The timer handle is a parameter, and the callback is the separate method `SendQueuedPosition`.
- The `Session` actor, the heartbeat interval and its timeout, `handle_websocket`, `main` and `bad_from_query` are not modelled. They concern I/O and the wall-clock date.
- Mailboxes and message delivery between actors are not modelled. Each handler is one atomic step. A broadcast returns its deliveries as a map from recipient to bytes instead of calling `do_send`.
- The DOM is not modelled: the divs, `createCursor`'s elements and the transforms in `updateUserPositionInternal`. Each entry of the client's `users` map is reduced to its untransformed position. The model assumes a div exists for exactly the ids in `users`, and that is what `removeUser`'s throw depends on.
- Floating-point arithmetic is not modelled. This covers the division that produces the outbound sample and the multiply in `transformCursor`. `SendQueuedPosition` takes the sample's two words as parameters.
- The reconnect and close lifecycle (`reconnect`, `close`, the listeners) is not modelled. Only the state changes of `handleClose` are kept.
- Client.CursorParty.HandleMessageJson: a parsed message is reduced to an optional integer `myid` and an optional boolean `heartbeat`. JavaScript truthiness of other values is not modelled.
- Client.CursorParty.HandleMessageJson: any live socket is taken to accept the reply. What `WebSocket.send` does outside the OPEN state is not modelled.
- Server.State.PositionUpdate: requires a live id. The `unwrap` panic on any other id is not an outcome of the model.
- Server.State.Connect: the overflow of `latest_id += 1` at `u32::MAX` is modelled as the outcome `IdOverflow`, with every field left as it was. In a debug build that panic also stops the `State` actor, so no later `Connect`, `Remove` or broadcast is handled; the model's `State` can still be called after it. The wrap-around of a release build is not modelled.
- The `order` parameters stand for `HashMap` and `HashSet` iteration order. The model requires only that each one lists the keys, each exactly once. The order in which the two broadcast loops visit users is not modelled: they hand out a map, and a map has no order.

## Findings

| source | as written | input that shows it | evidently intended | confidence | as-written member | corrected member |
|---|---|---|---|---|---|---|
| public/cursors2.js:233-236 | `removeUser` deletes the id, then calls `getElementById(...).remove()`. The lookup returns null for an id that has no cursor, so the call throws and the rest of the buffer is lost. Peers learn of a user only from its position updates, because `Connect` (src/main.rs:235-270) announces nobody. So a user who joins and leaves without moving is removed on clients that never saw it. | User 1 connects, then user 2 connects, then user 2 disconnects without moving. The next broadcast hands user 1 the record `(3, 1, 2)`. User 1's client throws on it, and any later id in the same record stays on screen. | An id without a cursor is skipped, and the remaining ids of the record are still removed. | not executed | Protocol.UnseenLeaverThrows, Protocol.UnknownRemoveThrows (mode `Client.AsWritten`) | Protocol.TolerantRemoveDeletesAll (mode `Client.IgnoreUnknown`; the round-trip lemmas hold under it with no condition on the removes) |
