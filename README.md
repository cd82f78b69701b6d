# EtherEventQueue and Numlen in Dafny

This project models the core of the EtherEventQueue Arduino library.

**What the library does.** It holds a queue of outgoing EtherEvent events, each with:

- a target address, a port and an event type (Once, Repeat, Confirm, OverrideTimeout);
- an event name and a payload, both cut to configured maximum lengths;
- an event id in 10..99, or 0 when the id search finds all ninety in use (see Findings).

A handler call sends one event. It puts the id's decimal text in front of the payload. Confirm events wait in the queue until the target answers with an ack event that names their id. The library also keeps a table of known nodes, with timestamps, timeout states and keepalive scheduling. Events a device queues to itself are delivered through the receive path without going over the network.

The project also models the six overloads of `numlen` in the Numlen library. Each one counts the characters of a number's decimal text.

Modules, one per concern:

- `Types`: the fixed-width integers, addresses, event types and node states. Unsigned 32-bit subtraction (`Sub32`) and the casts to `byte`, `int8_t`, `int16_t` and `int32_t`.
- `Decimal`: the decimal text of a number (`itoa`) and its reading back (`atoi`).
- `Counting`: a small counting lemma used for the id allocator.
- `Numlen`: the six `numlen` overloads as pure functions, with the 16-bit `int` of the AVR target.
- `OrderIndex`: the queue bookkeeping as a value. It holds the order index `queueIndex` (slot numbers, oldest first, -1 for empty), `queueSize`, the round-robin cursor `queuePriorityLevel`, `queueNewCount` and `internalEventQueueCount`. This module holds the pure specifications of `remove`, of the placement part of `queue`, of `flushQueue` and of the ack handler.
- `EventIds`: the id allocator `eventIDfind`.
- `Wire`: the id prefix written on send and parsed on receive.
- `Policy`: the admission checks of `queue`, what happens to an event after a send, and the sender filter.
- `Liveness`: the node lookup, the timeout and time-in detectors, `checkState` and the keepalive test.
- `Handler`: the selection loop of `queueHandler` and the delivery of internal events.
- `EventQueue`: the class `EtherEventQueue`, whose methods update its fields and arrays in place.

**How the class is specified.** Its arrays are:

- the slot store;
- the order index;
- the node table: addresses, states, timestamps and keepalive timestamps.

Every method's `ensures` ties the new state to a function of the old state from the pure modules. The properties of those functions are proved as lemmas there. `Valid()` states that the order index is well formed:

- every position holds -1 or a slot number below `queueSizeMax`;
- the first `queueSize` positions hold distinct slot numbers;
- the cursor is a position of the index;
- the counters fit in a byte.

Every method that changes the queue keeps `Valid()`.

**Transport as parameters.** The EtherEvent transport and the clock are parameters:

- `now` for `millis()`;
- `sendOk` for the result of `EtherEvent.send`;
- a `Frame` for what `EtherEvent.availableEvent`/`readEvent`/`readPayload` offer (length, event, raw payload, sender address).

The handler returns the frame it would send as an `Outgoing` value. The flag `senderIPAvailable` stands for the compile-time test of the modified Ethernet library (EtherEventQueue.cpp:160-181).

**Out-of-bounds choices.** The model follows the code as written, including its defects (see Findings). Where the code would read or write outside an array, the model makes an explicit choice:

- a read of the order index outside it sees -1;
- a write past an array is dropped;
- when the free-slot search of `queue` finds no slot, the code still grows `queueSize`, stores `queueSizeMax` at the new last order position, writes the event past the slot arrays, counts one more new event and returns 1; the model instead returns 0 and leaves the size, the order index and the new count as they were (the internal-event count is still raised);
- when the handler's selection yields a slot outside the slot arrays (the -1 of an empty position, which the code stores in a byte as 255), the handler ends without sending.

The corrected behaviour of each defect is a separate function. Its intended property is proved next to a lemma that exhibits the defect.

## Model

| member | source | states |
|---|---|---|
| Numlen.NumlenU8 | Numlen/Numlen.cpp:21-30 | `numlen(byte)` is the length of the value's decimal text, between 1 and 3 |
| Numlen.NumlenU16 | Numlen/Numlen.cpp:54-69 | `numlen(unsigned int)` is the length of the decimal text, between 1 and 5 |
| Numlen.NumlenU32 | Numlen/Numlen.cpp:108-137 | `numlen(unsigned long)` is the length of the decimal text, between 1 and 10 |
| Numlen.NumlenInt8 | Numlen/Numlen.cpp:5-19 | above the minimum, `numlen(int8_t)` is the length of the signed text: the unsigned count of the magnitude, plus one when negative; between 1 and 4; 1 exactly for 0..9 |
| Numlen.NumlenInt16 | Numlen/Numlen.cpp:32-52 | the same for the 16-bit `int` overload, bounded by 6 |
| Numlen.NumlenInt32 | Numlen/Numlen.cpp:71-106 | the same for `long`, bounded by 11 |
| Numlen.NumlenMonotone | Numlen/Numlen.cpp:11-17 | for non-negative inputs every overload's count never decreases as the input grows |
| Numlen.NumlenOverloadsAgree | Numlen/Numlen.cpp:1 | on a value every type can hold, all six overloads agree with the length of its decimal text |
| Numlen.Int8MinMiscounted | Numlen/Numlen.cpp:7-10 | at -128 the count is 2 while the text "-128" has 4 characters |
| Numlen.Int16MinMiscounted | Numlen/Numlen.cpp:34-37 | at -32768 the count is 2 while the text has 6 characters |
| Numlen.Int32MinMiscounted | Numlen/Numlen.cpp:73-76 | at -2^31 the count is 2 while the text has 11 characters |
| Numlen.NumlenInt8Fixed | Numlen/Numlen.cpp:5-19 | with the magnitude taken unsigned, the count is the signed text's length for every `int8_t`, including -128 |
| Numlen.NumlenInt16Fixed | Numlen/Numlen.cpp:32-52 | the same for every 16-bit `int` |
| Numlen.NumlenInt32Fixed | Numlen/Numlen.cpp:71-106 | the same for every `long` |
| Decimal.AtoiOfDecimalText | EtherEventQueue.cpp:225 | `atoi` reads back the value of every decimal text `itoa` writes |
| Decimal.TextLengthMonotone | Numlen/Numlen.cpp:1 | a larger number never has a shorter decimal text |
| EventIds.FirstFreeId | EtherEventQueue.cpp:873-895 | the result is 0 only when all of 10..99 are used; otherwise it is the smallest id in 10..99 that is not used |
| EventIds.FreeIdExists | EtherEventQueue.cpp:873-895 | fewer than ninety ids in use always leave a free id |
| EventIds.DuplicateIdHandedOut | EtherEventQueue.cpp:882-883 | after a removal, the search over positions hands out id 10 while a queued slot still holds 10 |
| EventIds.FreshId | EtherEventQueue.cpp:873-895 | the intended search, over the queued slots: a nonzero result differs from every queued event's id, and it is nonzero when fewer than ninety events are queued |
| EventIds.OverflowAtNinetyGivesZero | EtherEventQueue.cpp:880-894 | when the ninety slots searched hold the ids 10..99, every id counts as in use and the search returns 0 |
| EventIds.FreshIdAtCapacity | EtherEventQueue.cpp:873-895 | at every capacity up to ninety, the intended search over the other queued events (distinct slots, none of them the new event's) returns an id in 10..99 that none of them carries |
| Wire.WirePayload | EtherEventQueue.cpp:465-467 | the raw payload is as long as the id's text plus the payload |
| Wire.ParsedPayload | EtherEventQueue.cpp:212-221 | the payload is what follows the two id characters, or empty when nothing follows them |
| Wire.TwoDigitIdText | EtherEventQueue.cpp:873-895 | an id in 10..99, the range the id search walks, takes exactly two characters |
| Wire.ZeroIdLosesPayloadHead | EtherEventQueue.cpp:203-221 | an event sent with id 0 carries the one-character text "0", so the receiver reads the payload's first character as part of the id and drops it from the payload |
| Wire.WireRoundTrip | EtherEventQueue.cpp:203-221 | for an id in 10..99, the raw payload a send writes parses back to the same id and the same payload |
| Wire.IdThenPayload | EtherEventQueue.cpp:203-221 | any two characters in front of a payload are split off as the id, and the payload comes back unchanged |
| Wire.AckRoundTrip | EtherEventQueue.cpp:225 | an ack whose payload is an id's text names that id |
| Policy.AcceptsType | EtherEventQueue.cpp:327 | as written, a type is accepted iff it is one of the four and is Confirm or an ack name is set |
| Policy.AckCheckInverted | EtherEventQueue.cpp:327 | with no ack name, Once and OverrideTimeout events are refused and Confirm events accepted |
| Policy.AcceptsTypeIntended | EtherEventQueue.cpp:327 | the intended check: a known type is accepted unless it is Confirm with no ack name |
| Policy.TypeChecksCompared | EtherEventQueue.cpp:327 | the two checks agree when an ack name is set, and disagree on every known type when none is |
| Policy.TargetAdmitted | EtherEventQueue.cpp:330-345 | a non-node target is admitted iff non-node targets are allowed; this device always is; another node iff it has not timed out or the event is OverrideTimeout |
| Policy.RemovedAfterSend | EtherEventQueue.cpp:489-499 | Confirm events stay after a send; Once and OverrideTimeout events leave either way; Repeat events leave iff the send succeeded |
| Policy.SenderAdmittedAsWritten | EtherEventQueue.cpp:168-180 | the sender filter as written admits every sender |
| Policy.SenderFilterNeverRejects | EtherEventQueue.cpp:168-169 | an unknown sender (-1, stored as the byte 255) passes the filter even when only nodes are allowed |
| Policy.SenderAdmitted | EtherEventQueue.cpp:168-180 | the intended filter rejects exactly an unknown sender while only nodes are allowed |
| Liveness.FindNode | EtherEventQueue.cpp:168 | the node lookup: the first node configured with the address, or -1 when the address is unset or no node has it |
| Liveness.FirstNewlyTimedOut | EtherEventQueue.cpp:521-535 | the reported node is configured, was Active and has been silent past the timeout, and no lower node is; -1 when none is |
| Liveness.FirstNewlyTimedIn | EtherEventQueue.cpp:541-555 | the reported node is configured, was TimedOut and has been heard from within the timeout, and no lower node is; -1 when none is |
| Liveness.TimeoutReportedOnce | EtherEventQueue.cpp:521-535 | once the reported node is marked TimedOut, a repeated call at the same time reports a higher node or none, and that node does not count as timed in |
| Liveness.TimeinReportedOnce | EtherEventQueue.cpp:541-555 | once the reported node is marked Active, a repeated call does not report it again, and it does not count as timed out |
| Liveness.NodeStatus | EtherEventQueue.cpp:561-575 | -1 iff the node is out of range, 0 iff it has been silent past the timeout, 1 iff it has not |
| Liveness.ReportedNodeIsTimedOut | EtherEventQueue.cpp:521-575 | a node the timeout check reports is one the state check calls timed out |
| Liveness.KeepaliveBeforeTimeout | EtherEventQueue.cpp:704-721 | with the margin at most the timeout, a node that has timed out is due a keepalive once the keepalive resend delay has passed |
| Liveness.LargeMarginSuppressesKeepalive | EtherEventQueue.cpp:686-689 | a margin larger than the timeout would stop keepalives for recently heard nodes, which is why the setter clamps it |
| Liveness.TrafficRearmsKeepalive | EtherEventQueue.cpp:171 | setting the keepalive timestamp to the time minus the resend delay makes the delay count as exactly elapsed |
| Liveness.ReportedNode | EtherEventQueue.cpp:521 | storing the node number in the `int8_t` result keeps -1..127 unchanged |
| Liveness.HighNodeLooksAbsent | EtherEventQueue.cpp:521 | node 255 is reported as -1 and node 200 as -56 |
| Liveness.HighNodeReportedNegative | EtherEventQueue.cpp:521 | whenever the first newly timed-out node is numbered 128 or more, the byte-converted report is negative, so it reads as "none" or as a wrong node |
| Liveness.CheckTimeoutWide | EtherEventQueue.cpp:521-535 | the intended timeout detector reports the lowest node that newly timed out, or -1 exactly when no node newly timed out |
| Liveness.CheckTimeinWide | EtherEventQueue.cpp:541-555 | the intended time-in detector reports the lowest node that newly came back, or -1 exactly when no node newly came back |
| OrderIndex.FindPos | EtherEventQueue.cpp:912-916 | the first order position holding the slot, or the queue size when none does |
| OrderIndex.Removed | EtherEventQueue.cpp:901-942 | `remove` lowers the size by one, or to 0 from at most 1; it lowers the internal count iff the slot targets this device and the count is positive |
| OrderIndex.RemovedShiftsLeft | EtherEventQueue.cpp:919-923 | `remove` keeps the order positions before the removed one and shifts the later ones left by one |
| OrderIndex.RemovedOrder | EtherEventQueue.cpp:901-942 | the queued slots after `remove` are the ones before it with that slot dropped |
| OrderIndex.RemoveFromOrderDistinct | EtherEventQueue.cpp:901-942 | removal keeps the queued slots free of repetitions |
| OrderIndex.RemovedWellFormed | EtherEventQueue.cpp:901-942 | `remove` keeps the bookkeeping well formed |
| OrderIndex.RemoveListed | EtherEventQueue.cpp:912-923 | removing a queued slot drops exactly its entry |
| OrderIndex.CursorStable | EtherEventQueue.cpp:927-934 | after `remove` the cursor points at the same event, or, when that event was removed, the next round-robin step reaches the event that followed it |
| OrderIndex.NextLevelCycles | EtherEventQueue.cpp:424-430 | in a well-formed state the round-robin step walks the queued events cyclically |
| OrderIndex.FreeSlot | EtherEventQueue.cpp:364-374 | the smallest slot not listed before the first empty position, or the capacity when every slot is listed |
| OrderIndex.FreeSlotNotQueued | EtherEventQueue.cpp:364-374 | in a well-formed state a slot the search finds is not queued |
| OrderIndex.InsertedOrder | EtherEventQueue.cpp:378-389 | appending a slot that is not queued makes it the newest entry and keeps the bookkeeping well formed |
| OrderIndex.Enqueue | EtherEventQueue.cpp:353-389 | the placement reports an overflow iff the queue was full; a found slot grows the size by one, or keeps it after an overflow; when no free slot is found the model returns 0 and keeps the size, the order index and the new count (the code's behaviour there is under Left out) |
| OrderIndex.EnqueueBelowCapacity | EtherEventQueue.cpp:364-389 | below capacity the event takes the free slot, which was not queued, and becomes the newest entry; the new count grows by one, the internal count too for a self-targeted event, and the cursor stays |
| OrderIndex.EnqueueAtCapacity | EtherEventQueue.cpp:353-359 | at capacity the newest entry's slot is reused, the order of slots is unchanged and the size stays at the capacity |
| OrderIndex.EnqueueWellFormed | EtherEventQueue.cpp:353-389 | `queue` keeps the bookkeeping well formed |
| OrderIndex.Initial | EtherEventQueue.cpp:79-84 | `begin` leaves every order position empty and the queue empty and well formed |
| OrderIndex.Flushed | EtherEventQueue.cpp:510-515 | `flushQueue` empties the queue and zeroes the new and internal counts, keeping the index and the cursor |
| OrderIndex.FlushedWellFormed | EtherEventQueue.cpp:510-515 | `flushQueue` keeps the bookkeeping well formed |
| OrderIndex.AckSweepNoMatch | EtherEventQueue.cpp:223-237 | an ack that matches no Confirm event at the positions swept leaves the queue unchanged |
| OrderIndex.AckSweepWellFormed | EtherEventQueue.cpp:223-237 | the ack handler keeps the bookkeeping well formed |
| OrderIndex.AckRemovesMatch | EtherEventQueue.cpp:223-237 | when exactly one slot of the whole store holds a Confirm event with the acked id, and that slot is queued and numbered below the size, the ack removes exactly that entry from the order and keeps the rest in order |
| OrderIndex.OverflowEvictsNewest | EtherEventQueue.cpp:355 | a full queue of slots 0,1,2 gives slot 2, the newest, to the new event |
| OrderIndex.EnqueueEvictingOldest | EtherEventQueue.cpp:353-359 | the intended overflow reuses the oldest entry's slot |
| OrderIndex.EvictingOldestOrder | EtherEventQueue.cpp:353-359 | with it the oldest event leaves, the new one becomes the newest, and the bookkeeping stays well formed |
| OrderIndex.OverflowEvictingOldestScenario | EtherEventQueue.cpp:353-359 | on the same full queue the intended overflow reuses slot 0 and gives the order 1,2,0 |
| OrderIndex.NewCountExceedsSize | EtherEventQueue.cpp:353-389 | an overflow while every entry is new leaves a new count of 4 with a size of 3 |
| OrderIndex.EnqueueCountingEvicted | EtherEventQueue.cpp:353-389 | the intended count places like `queue`, and keeps the new count within the size |
| OrderIndex.StaleTailHidesFreeSlot | EtherEventQueue.cpp:924 | after removing slot 2 from a full queue of three, slot 2 stays listed and the free-slot search finds none |
| OrderIndex.RemovedClearingTail | EtherEventQueue.cpp:901-942 | the intended `remove` clears the vacated position: it gives the same queued slots and keeps every position past the size empty |
| OrderIndex.CleanTailHasFreeSlot | EtherEventQueue.cpp:364-374 | with every position past the size empty, the search finds a slot whenever the queue is not full |
| OrderIndex.FlushKeepsIndex | EtherEventQueue.cpp:512-514 | after `flushQueue` on a full queue the search finds no free slot, and the cursor stays at 2 |
| OrderIndex.FlushedClearingIndex | EtherEventQueue.cpp:510-515 | the intended flush empties the index and resets the cursor, so the search finds slot 0 |
| OrderIndex.AckMissesHighSlot | EtherEventQueue.cpp:226-227 | an ack for the Confirm event in slot 2, while only that event is queued, removes nothing |
| OrderIndex.AckIntended | EtherEventQueue.cpp:223-237 | the intended ack handler keeps exactly the queued slots that do not hold a Confirm event with the acked id, in their order |
| OrderIndex.AckIntendedAppend | EtherEventQueue.cpp:223-237 | the intended ack handler works entry by entry: acking a concatenation is the concatenation of the acked parts |
| OrderIndex.AckIntendedNoMatch | EtherEventQueue.cpp:223-237 | when no queued slot holds a Confirm event with the acked id, the intended ack changes nothing |
| OrderIndex.AckIntendedRemovesMatch | EtherEventQueue.cpp:223-237 | when exactly one queued entry matches the ack, the intended ack removes that entry and keeps the others in order, whatever its slot number |
| OrderIndex.DuplicateAckKeepsUnrelated | EtherEventQueue.cpp:223-237 | a repeated ack for an already removed Confirm event leaves the remaining Once event queued |
| OrderIndex.DuplicateAckDropsUnrelated | EtherEventQueue.cpp:226-229 | order 0,1 with a Confirm event of id 10 in slot 0 and a Once event in slot 1: the first ack for 10 leaves order 1, and a repeated ack for 10 then empties the queue |
| OrderIndex.StaleAckMatchDropsOther | EtherEventQueue.cpp:226-229 | order 1,2 over stored Confirm events with id 10 in slots 0 and 1: an ack for 10 also matches the stale slot 0 and leaves order 1 rather than 2 |
| Handler.VerdictFor | EtherEventQueue.cpp:437-461 | an event to this device is skipped; one to another node that has timed out is dumped unless it is OverrideTimeout; all others are taken |
| Handler.Choose | EtherEventQueue.cpp:422-436 | with new events the step consumes one and keeps the cursor; without, it advances the cursor and restarts the resend delay |
| Handler.ChooseOldestNew | EtherEventQueue.cpp:433-435 | with new events the step picks the oldest new event |
| Handler.ChooseRoundRobin | EtherEventQueue.cpp:424-431 | without new events the step picks the event after the cursor, cyclically |
| Handler.ChooseWellFormed | EtherEventQueue.cpp:422-436 | the step keeps the bookkeeping well formed |
| Handler.Select | EtherEventQueue.cpp:421-465 | the selection only shrinks the queue, and a slot it sends is numbered below the capacity; it may be a slot no longer queued (Handler.SendsDumpedEvent) |
| Handler.SelectWellFormed | EtherEventQueue.cpp:421-462 | the selection keeps the bookkeeping well formed |
| Handler.SendsDumpedEvent | EtherEventQueue.cpp:421-465 | when the loop ends without a take, the last chosen slot is sent although it was just dumped |
| Handler.SelectIntended | EtherEventQueue.cpp:421-465 | the intended selection sends only a slot whose verdict is take |
| Handler.DumpedEventNotSent | EtherEventQueue.cpp:421-465 | in the same situation the intended selection sends nothing |
| Handler.LastSelfSlot | EtherEventQueue.cpp:141-142 | the internal scan: the highest position at or below the start whose slot targets this device, or -1 |
| Handler.Dispatched | EtherEventQueue.cpp:149-150 | delivering an internal event removes it and lowers the new count by one as a byte |
| Handler.InternalScanMissesHighSlot | EtherEventQueue.cpp:141-142 | an internal event in slot 2 while only one event is queued is not found |
| Handler.NewestQueuedSelf | EtherEventQueue.cpp:140-153 | the intended scan finds a queued event to this device whenever there is one, and the one it finds is the newest: no later order position holds an event to this device |
| Handler.NewCountUnderflows | EtherEventQueue.cpp:150 | after a send, delivering the internal event turns a new count of 0 into 255 |
| Handler.DispatchedIntended | EtherEventQueue.cpp:149-150 | the intended delivery keeps the new count within the size |
| EventQueue.Truncate | EtherEventQueue.cpp:385-387 | the stored text is a prefix of the given one of at most the maximum length, and all of it when it fits |
| EventQueue.EtherEventQueue.constructor | EtherEventQueue.cpp:50-132 | `begin`: node count at least the device node plus one; queue size capped at 90; empty queue; only this device's address set; default delays; no keepalive or ack name; empty receive buffer |
| EventQueue.EtherEventQueue.Remove | EtherEventQueue.cpp:901-942 | `remove` changes the bookkeeping as OrderIndex.Removed says and keeps it well formed |
| EventQueue.EtherEventQueue.FindOrderPos | EtherEventQueue.cpp:912-916 | the search loop finds the first order position holding the slot |
| EventQueue.EtherEventQueue.ShiftOut | EtherEventQueue.cpp:919-924 | the shifting loop and the clearing write give OrderIndex.Shifted |
| EventQueue.EtherEventQueue.FindFreeSlot | EtherEventQueue.cpp:364-374 | the nested search loops return OrderIndex.FreeSlot |
| EventQueue.EtherEventQueue.EventIdFind | EtherEventQueue.cpp:873-895 | 10 on an empty queue, otherwise the first id not held by the slots at positions below the size |
| EventQueue.EtherEventQueue.FlushQueue | EtherEventQueue.cpp:510-515 | the bookkeeping becomes OrderIndex.Flushed of the old one |
| EventQueue.EtherEventQueue.CheckQueueOverflow | EtherEventQueue.cpp:581-587 | returns whether an overflow happened since the last call and clears the flag, so a second call returns false |
| EventQueue.EtherEventQueue.SetResendDelay | EtherEventQueue.cpp:593-597 | the resend delay becomes the input and nothing else changes |
| EventQueue.EtherEventQueue.SetNodeTimeoutDuration | EtherEventQueue.cpp:613-617 | the node timeout becomes the input and nothing else changes; the keepalive margin is not re-clamped |
| EventQueue.EtherEventQueue.ReceiveNodesOnly | EtherEventQueue.cpp:634-638 | the receive-from-nodes-only flag becomes the input |
| EventQueue.EtherEventQueue.SendNodesOnly | EtherEventQueue.cpp:645-649 | the send-to-nodes-only flag becomes the input |
| EventQueue.EtherEventQueue.SetSendKeepaliveMargin | EtherEventQueue.cpp:686-689 | the margin becomes the input, clamped to the node timeout |
| EventQueue.EtherEventQueue.SetSendKeepaliveResendDelay | EtherEventQueue.cpp:727-731 | the keepalive resend delay becomes the input |
| EventQueue.EtherEventQueue.SetEventKeepalive | EtherEventQueue.cpp:747-757 | the keepalive event name becomes the input, which makes the keepalive paths reachable; the model always returns true, while the source returns false when the allocation fails |
| EventQueue.EtherEventQueue.SetEventAck | EtherEventQueue.cpp:807-817 | the ack event name becomes the input, which makes the ack paths reachable; the model always returns true, while the source returns false when the allocation fails |
| EventQueue.EtherEventQueue.AvailablePayload | EtherEventQueue.cpp:249-257 | 0 for an empty payload; otherwise the payload length plus one for the terminator, as a byte |
| EventQueue.EtherEventQueue.ReadEvent | EtherEventQueue.cpp:263-267 | hands out the buffered event and clears the length, so the next event can be received |
| EventQueue.EtherEventQueue.ReadPayload | EtherEventQueue.cpp:273-276 | hands out the buffered payload |
| EventQueue.EtherEventQueue.FlushReceiver | EtherEventQueue.cpp:290-295 | empties the event and payload buffers and clears the length |
| EventQueue.EtherEventQueue.NodeOf | EtherEventQueue.cpp:168 | `getNode`: a node whose address is the given one and set, or -1 when the address is unset or unknown |
| EventQueue.EtherEventQueue.NodeIsSet | EtherEventQueue.cpp:948-956 | true iff the node's address is not 0.0.0.0 |
| EventQueue.EtherEventQueue.RemoveNode | EtherEventQueue.cpp:655-665 | an in-range node's address is unset, so no lookup finds it; an out-of-range number changes nothing |
| EventQueue.EtherEventQueue.CheckTimeout | EtherEventQueue.cpp:521-535 | reports Liveness.FirstNewlyTimedOut through the `int8_t` result and marks that node, and only that node, TimedOut |
| EventQueue.EtherEventQueue.CheckTimein | EtherEventQueue.cpp:541-555 | reports Liveness.FirstNewlyTimedIn and marks that node, and only that node, Active |
| EventQueue.EtherEventQueue.CheckState | EtherEventQueue.cpp:561-575 | reports Liveness.NodeStatus without changing anything: 0 iff the node exists and has timed out, 1 iff it exists and has not |
| EventQueue.EtherEventQueue.SlotFor | EtherEventQueue.cpp:378-389 | the stored slot keeps the target, port, type and id, and the event and payload cut to their maximum lengths |
| EventQueue.EtherEventQueue.Queue | EtherEventQueue.cpp:325-408 | a refused event (unknown type, the ack check as written, a refused target) changes nothing and returns 0; otherwise the event is placed as OrderIndex.Enqueue says, stored in its slot with a fresh id, and 1 or 2 is returned, with the overflow flag raised on 2 |
| EventQueue.EtherEventQueue.Place | EtherEventQueue.cpp:353-389 | the placement part of `queue`, as OrderIndex.Enqueue says |
| EventQueue.EtherEventQueue.Vacate | EtherEventQueue.cpp:347-374 | the internal-count increment, the overflow eviction and the free-slot search, as OrderIndex.Vacated says |
| EventQueue.EtherEventQueue.Store | EtherEventQueue.cpp:378-389 | the event is appended as the newest entry and its slot holds the stored event |
| EventQueue.EtherEventQueue.QueueToNode | EtherEventQueue.cpp:314-321 | an out-of-range or unset node number returns 0 and changes nothing; otherwise it is the main `queue` to that node's address |
| EventQueue.EtherEventQueue.SendKeepalive | EtherEventQueue.cpp:704-721 | with a keepalive name set, each due node's keepalive timestamp becomes the time; with no keepalive or ack name the queue is unchanged, because the ack check refuses OverrideTimeout events |
| EventQueue.EtherEventQueue.KeepaliveNode | EtherEventQueue.cpp:710-719 | a node other than the device, with a set address and due for a keepalive, gets its keepalive timestamp set to the time and, with an ack name set, a keepalive `queue` call whose outcome is as Queued says (its result returned); any other node leaves the timestamps and the queue unchanged and the result is 0 |
| EventQueue.EtherEventQueue.QueueKeepalive | EtherEventQueue.cpp:716 | the keepalive is queued to the node as an OverrideTimeout event with an empty payload |
| EventQueue.EtherEventQueue.NoteNode | EtherEventQueue.cpp:170-174 | traffic with a node sets its timestamp, re-arms its keepalive delay and promotes Unknown to Active |
| EventQueue.EtherEventQueue.QueueHandler | EtherEventQueue.cpp:414-504 | when not due it changes nothing and returns true; otherwise it selects as Handler.Select says, sends the chosen event with its id in front of its payload, records traffic on success and removes the event as Policy.RemovedAfterSend says, returning the send's result |
| EventQueue.EtherEventQueue.SelectSlot | EtherEventQueue.cpp:421-465 | the selection loop ends in the state and outcome of Handler.Select |
| EventQueue.EtherEventQueue.ChooseStep | EtherEventQueue.cpp:422-436 | one choice, as Handler.Choose says |
| EventQueue.EtherEventQueue.Judge | EtherEventQueue.cpp:437-461 | the verdict on the chosen slot, as Handler.VerdictFor says |
| EventQueue.EtherEventQueue.SendSlot | EtherEventQueue.cpp:465-501 | the frame sent carries the slot's target, port, event and wire payload; success records traffic; the slot is removed as Policy.RemovedAfterSend says |
| EventQueue.EtherEventQueue.ReleaseAfterSend | EtherEventQueue.cpp:489-499 | the slot is removed exactly when Policy.RemovedAfterSend says |
| EventQueue.EtherEventQueue.NoteTraffic | EtherEventQueue.cpp:478-487 | a send sets the device's own timestamp, then records traffic with the byte-converted target node |
| EventQueue.EtherEventQueue.AvailableEvent | EtherEventQueue.cpp:138-243 | a buffered event is reported again with nothing changed; else the internal event found by the scan is delivered; else no incoming event returns 0; else the event is accepted: it counts as traffic, a keepalive is dropped, an ack releases the Confirm events it names, and any other event is buffered |
| EventQueue.EtherEventQueue.FindSelfSlot | EtherEventQueue.cpp:141-142 | the scan returns Handler.LastSelfSlot from the last position below the size |
| EventQueue.EtherEventQueue.DeliverInternal | EtherEventQueue.cpp:143-151 | the internal event is copied to the receive buffers, removed as Handler.Dispatched says, and its length returned |
| EventQueue.EtherEventQueue.Withdraw | EtherEventQueue.cpp:149-150 | the delivered event leaves the queue as Handler.Dispatched says |
| EventQueue.EtherEventQueue.NoteArrival | EtherEventQueue.cpp:165-181 | an incoming event sets the device's timestamp, and records traffic with the sender when its address is available |
| EventQueue.EtherEventQueue.Interpret | EtherEventQueue.cpp:183-239 | a keepalive is dropped with the buffers emptied; any other event is handled as InterpretEvent says |
| EventQueue.EtherEventQueue.InterpretEvent | EtherEventQueue.cpp:193-239 | the id and payload are split off the raw payload; an ack releases what it names and is dropped; any other event is buffered with its length |
| EventQueue.EtherEventQueue.ReleaseAcked | EtherEventQueue.cpp:223-237 | the ack releases the Confirm events it names, as OrderIndex.AckSweep says, and empties the buffers |
| EventQueue.EtherEventQueue.AckRelease | EtherEventQueue.cpp:226-234 | the ack handler's loop gives OrderIndex.AckSweep |

## Left out

- `begin`'s memory allocation, `Serial.begin` and `EtherEvent.begin` are left out. The constructor requires at least one queue slot and a device node below 255, where allocation would otherwise fail or the node count would wrap. It does not model the receive buffer length parameters.
- All EtherEvent and Ethernet transport calls are left out. Their results are parameters: the incoming `Frame`, the send result `sendOk`, and the time `now` for `millis()`.
- EtherEvent's `availablePayload` is taken to be the raw payload's length plus one for the terminator.
- The `Serial` debug output is left out; it is observability only.
- The numeric and flash-string overloads of `setEventKeepalive` and `setEventAck` are left out. The string overloads are modelled, and their allocation never fails in the model.
- EventQueue.EtherEventQueue.SetEventKeepalive: the failed `realloc` is not modelled, so the result is always true; the source returns false then (EtherEventQueue.cpp:752-755), after its `strcpy` has already written through the null pointer.
- EventQueue.EtherEventQueue.SetEventAck: the same for the ack name (EtherEventQueue.cpp:812-815).
- `getIP`, `receivedEventID` and the other getters are left out. The trivial setters are modelled as plain assignments.
- The overload of `queue` taking an `IPAddress` is left out. It converts the address and calls the main overload.
- The bodies of `getNode`, `setNode` and `IPcopy` are not in the repository's files. `getNode` is modelled as the first configured node whose address matches, where 0.0.0.0 never matches; `setNode` in `begin` as storing the local address at the device node; `IPcopy` as a plain copy of the address.
- `atoi` is modelled on optional white space, an optional sign and a run of digits. The C library's behaviour on overflow is left out: ids and acks are at most three digits.
- EventQueue.EtherEventQueue.Queue: when the free-slot search finds no slot, the model returns 0 and keeps the size, the order index and the new count. The code grows `queueSize`, stores `queueSizeMax` in `queueIndex[queueSize-1]`, writes the event at index `queueSizeMax` past the slot arrays, increments `queueNewCount` and returns 1 (EtherEventQueue.cpp:377-407); an out-of-range entry in the order index is outside what the model's state can hold.
- EventQueue.EtherEventQueue.QueueKeepalive: the call at EtherEventQueue.cpp:716 passes four arguments, and the model takes the missing payload to be empty. No default for it is declared in EtherEventQueue.h, which declares an older five-argument `queue`.
- EventQueue.EtherEventQueue.QueueHandler: when the selection reads an empty position (a stale cursor or a negative position), the model ends the call without a send; the code would index the slot arrays at 255.
- EventQueue.EtherEventQueue.Remove: the clearing write past the order index when the queue was full is dropped. The code writes outside the array there.
- EventQueue.EtherEventQueue.NoteNode: writes at node 255, which comes from the byte-converted lookup, are dropped when 255 is past the node table.
- EventQueue.EtherEventQueue.SendKeepalive: when both a keepalive and an ack name are set, the ensures does not state the resulting queue. Each node's pass is stated by KeepaliveNode: a due node's keepalive is a Queued call, and a node not due leaves the queue unchanged.
- `queueNewCount <= queueSize` is not part of `Valid()`, because the code breaks it (see Findings).

## Findings

| source | as written | input that shows it | evidently intended | confidence | as-written member | corrected member |
|---|---|---|---|---|---|---|
| EtherEventQueue.cpp:327 | a non-Confirm event is refused when no ack name is set, and a Confirm event accepted | `queue` of a Once event, or a keepalive, with no ack name | refuse only Confirm events when no ack name is set | not executed | Policy.AckCheckInverted | Policy.AcceptsTypeIntended |
| EtherEventQueue.cpp:355 | overflow removes `queueIndex[queueSize-1]`, the newest entry | a full queue with order 0,1,2: the new event reuses slot 2 | evict the oldest entry | not executed | OrderIndex.OverflowEvictsNewest | OrderIndex.EnqueueEvictingOldest |
| EtherEventQueue.cpp:924 | `remove` clears `queueIndex[queueSize+1]`, leaving the old tail position stale | remove slot 2 from order 0,1,2: the free-slot search then finds no slot | clear `queueIndex[queueSize]` | not executed | OrderIndex.StaleTailHidesFreeSlot | OrderIndex.RemovedClearingTail |
| EtherEventQueue.cpp:882-883 | `eventIDfind` compares ids at slot numbers 0..queueSize-1 | slot ids 11,12,10 with slots 2,0 queued: id 10 is handed out while slot 2 holds it | compare the ids of the queued slots | not executed | EventIds.DuplicateIdHandedOut | EventIds.FreshId |
| EtherEventQueue.cpp:880-894 | `eventIDfind` runs after `queueSize++` and so also counts the stale id of the slot being refilled; when all ninety ids count as used it returns 0 | capacity 90, ninety events queued from empty hold ids 10..99, then a 91st event overflows: it gets id 0 and goes out as "0" followed by its payload, whose first character the receiver then takes as part of the id | compare only the other queued events, so a two-digit id is always free | not executed | EventIds.OverflowAtNinetyGivesZero | EventIds.FreshIdAtCapacity |
| EtherEventQueue.cpp:226-227 | the ack handler looks at slot numbers 0..queueSize-1 | only slot 2 queued, a Confirm event with id 12: an ack for 12 removes nothing | look at the queued slots | not executed | OrderIndex.AckMissesHighSlot | OrderIndex.AckIntended |
| EtherEventQueue.cpp:226-229 | the ack handler tests every slot number below queueSize, queued or not | order 0,1, a Confirm event with id 10 in slot 0 and a Once event in slot 1: a repeated ack for 10 matches the removed slot 0 again and removes slot 1 | remove only queued matches | not executed | OrderIndex.DuplicateAckDropsUnrelated | OrderIndex.AckIntended |
| EtherEventQueue.cpp:141-142 | the internal-event scan looks at slot numbers below queueSize | only slot 2 queued, an event to this device: it is never delivered | scan the queued slots | not executed | Handler.InternalScanMissesHighSlot | Handler.NewestQueuedSelf |
| EtherEventQueue.cpp:168-169 | `getNode` is stored in a `byte`, so the `>= 0` test always passes | an event from an unknown sender while only nodes are allowed is accepted | reject unknown senders when only nodes are allowed | not executed | Policy.SenderFilterNeverRejects | Policy.SenderAdmitted |
| EtherEventQueue.cpp:512-514 | `flushQueue` resets the counters only | flush a full queue of slots 0,1,2: the free-slot search finds no slot | empty the order index and reset the cursor | not executed | OrderIndex.FlushKeepsIndex | OrderIndex.FlushedClearingIndex |
| EtherEventQueue.cpp:150 | `queueNewCount--` after delivering an internal event | an internal event in slot 0 and an event to another node in slot 1, both new: the handler consumes both new counts and sends slot 1, then the delivery of slot 0 turns the new count 0 into 255 | decrement only while the count is positive, within the size | not executed | Handler.NewCountUnderflows | Handler.DispatchedIntended |
| EtherEventQueue.cpp:353-389 | overflow keeps the size but counts one more new event | overflow of a full queue of three new events: new count 4 with size 3 | keep the new count within the size | not executed | OrderIndex.NewCountExceedsSize | OrderIndex.EnqueueCountingEvicted |
| EtherEventQueue.cpp:421-465 | when the loop ends without a take, the last chosen slot is sent anyway | slots 0,1 queued, no new events, cursor at 1: slot 0 is chosen and dumped, the loop runs out, and slot 0 is sent | send nothing | not executed | Handler.SendsDumpedEvent | Handler.SelectIntended |
| Numlen/Numlen.cpp:10 | `abs` of the type's minimum does not fit back into the type | `numlen((int8_t)-128)` returns 2 | 4, the length of "-128" | not executed | Numlen.Int8MinMiscounted | Numlen.NumlenInt8Fixed |
| Numlen/Numlen.cpp:37 | the same for the 16-bit `int` | `numlen(-32768)` returns 2 | 6 | not executed | Numlen.Int16MinMiscounted | Numlen.NumlenInt16Fixed |
| Numlen/Numlen.cpp:76 | the same for `long` | `numlen(-2147483648L)` returns 2 | 11 | not executed | Numlen.Int32MinMiscounted | Numlen.NumlenInt32Fixed |
| EtherEventQueue.cpp:521 | the node number is returned as `int8_t` | node 200 of a table of more than 200 nodes times out: -56 is reported | report the lowest newly timed-out node unchanged, and -1 only when none timed out | not executed | Liveness.HighNodeLooksAbsent | Liveness.CheckTimeoutWide |
