/** The bookkeeping of the outgoing queue, as a value: the order index `queueIndex` (slot
    numbers, oldest first, -1 marking empty positions), `queueSize`, the round-robin cursor
    `queuePriorityLevel`, `queueNewCount` and `internalEventQueueCount`. The class in
    ether_event_queue.dfy keeps these in fields and an array, and each of its methods is
    specified by the functions below. */
module OrderIndex {
  import opened Types
  import opened Counting

  datatype IndexState = IndexState(idx: seq<int>, size: nat, level: nat, newCount: nat, internal: nat)

  /** The marker of an empty order position. */
  const Empty: int := -1

  /** An order position read as the source reads it; a position outside the array reads as
      empty (the source reads past the array there). */
  function At(idx: seq<int>, p: int): (v: int)
    ensures 0 <= p < |idx| ==> v == idx[p]
    ensures !(0 <= p < |idx|) ==> v == Empty
  {
    if 0 <= p < |idx| then idx[p] else Empty
  }

  predicate Distinct(s: seq<int>) {
    forall i, j :: 0 <= i < j < |s| ==> s[i] != s[j]
  }

  /** The invariant the queue keeps: every order position holds -1 or a slot number, the first
      `size` positions hold slot numbers, each at most once, and the counters fit their bytes. */
  predicate WellFormed(st: IndexState, cap: nat) {
    && 1 <= cap && |st.idx| == cap && st.size <= cap && st.level < cap
    && st.newCount < TWO8 && st.internal < TWO8
    && (forall p :: 0 <= p < cap ==> -1 <= st.idx[p] < cap)
    && (forall p :: 0 <= p < st.size ==> 0 <= st.idx[p])
    && Distinct(st.idx[..st.size])
  }

  /** The queued slots, oldest first. */
  function Order(st: IndexState): (o: seq<int>)
    requires st.size <= |st.idx|
    ensures |o| == st.size
  {
    st.idx[..st.size]
  }

  // ---------------------------------------------------------------------------------------
  // remove (EtherEventQueue.cpp:901-942)

  /** The first position below `size` that holds `slot`, or `size` when there is none. */
  function FindPos(idx: seq<int>, size: nat, slot: int): (p: nat)
    requires size <= |idx|
    ensures p <= size
    ensures p < size ==> idx[p] == slot
    ensures forall q :: 0 <= q < p ==> idx[q] != slot
  {
    FindPosFrom(idx, size, slot, 0)
  }

  function FindPosFrom(idx: seq<int>, size: nat, slot: int, from: nat): (p: nat)
    requires from <= size <= |idx|
    requires forall q :: 0 <= q < from ==> idx[q] != slot
    ensures from <= p <= size
    ensures p < size ==> idx[p] == slot
    ensures forall q :: 0 <= q < p ==> idx[q] != slot
    decreases size - from
  {
    if from == size || idx[from] == slot then from else FindPosFrom(idx, size, slot, from + 1)
  }

  lemma FindPosUnique(idx: seq<int>, size: nat, slot: int, p: nat)
    requires size <= |idx| && p <= size
    requires p < size ==> idx[p] == slot
    requires forall q :: 0 <= q < p ==> idx[q] != slot
    ensures FindPos(idx, size, slot) == p
  {
  }

  /** The order index after the shifting loop of `remove`: positions `pos .. n-1` take the
      entry one to their right, and position `clear` is set to -1 when it exists. */
  function Shifted(idx: seq<int>, pos: nat, n: nat, clear: nat): (r: seq<int>)
    requires n < |idx|
    ensures |r| == |idx|
  {
    seq(|idx|, p requires 0 <= p < |idx| =>
      if pos <= p < n then idx[p + 1] else if p == clear then Empty else idx[p])
  }

  /** `remove(slot)`: `slotIsSelf` says whether the slot's target address is this device's. */
  function Removed(st: IndexState, slot: int, slotIsSelf: bool): (r: IndexState)
    requires st.size <= |st.idx|
    ensures |r.idx| == |st.idx| && r.newCount == st.newCount
    ensures r.size == if st.size > 1 then st.size - 1 else 0
    ensures r.internal == if slotIsSelf && st.internal > 0 then st.internal - 1 else st.internal
  {
    var internal := if slotIsSelf && st.internal > 0 then st.internal - 1 else st.internal;
    if st.size > 1 then
      var pos := FindPos(st.idx, st.size, slot);
      var n := st.size - 1;
      // the shifting loop's counter ends at n, or at pos when no shift happens; the source
      // then clears the position after it
      var stop := if pos < n then n else pos;
      var level := if st.level >= pos then (if st.level == 0 then n - 1 else st.level - 1)
                   else st.level;
      IndexState(Shifted(st.idx, pos, n, stop + 1), n, level, st.newCount, internal)
    else
      IndexState(if |st.idx| > 0 then st.idx[0 := Empty] else st.idx, 0, st.level, st.newCount, internal)
  }

  /** What `remove` does to the list of queued slots: it drops the first occurrence of the
      slot, or, when the slot is not listed, the newest entry; a queue of one entry empties. */
  function RemoveFromOrder(o: seq<int>, slot: int): (r: seq<int>)
    ensures |r| == if |o| > 1 then |o| - 1 else 0
  {
    if |o| <= 1 then []
    else
      var i := FindPos(o, |o|, slot);
      if i < |o| then o[..i] + o[i + 1..] else o[..|o| - 1]
  }

  /** `remove` keeps earlier order positions and shifts later ones left by one. */
  lemma RemovedShiftsLeft(st: IndexState, slot: int, slotIsSelf: bool)
    requires st.size > 1 && st.size <= |st.idx|
    ensures var pos := FindPos(st.idx, st.size, slot);
            var r := Removed(st, slot, slotIsSelf);
            && (forall p :: 0 <= p < pos && p < r.size ==> r.idx[p] == st.idx[p])
            && (forall p :: pos <= p < r.size ==> r.idx[p] == st.idx[p + 1])
  {
  }

  lemma {:induction false} RemovedOrder(st: IndexState, slot: int, slotIsSelf: bool)
    requires st.size <= |st.idx|
    ensures Order(Removed(st, slot, slotIsSelf)) == RemoveFromOrder(Order(st), slot)
  {
    var r := Removed(st, slot, slotIsSelf);
    if st.size > 1 {
      var o := Order(st);
      var pos := FindPos(st.idx, st.size, slot);
      FindPosUnique(o, |o|, slot, pos);
      if pos < st.size {
        assert Order(r) == o[..pos] + o[pos + 1..];
      } else {
        assert Order(r) == o[..|o| - 1];
      }
    }
  }

  /** Dropping one entry of a sequence without repetitions leaves one without repetitions. */
  lemma DistinctWithout(o: seq<int>, i: nat)
    requires Distinct(o) && i < |o|
    ensures Distinct(o[..i] + o[i + 1..])
  {
    var o' := o[..i] + o[i + 1..];
    forall a, b | 0 <= a < b < |o'| ensures o'[a] != o'[b] {
      var a0 := if a < i then a else a + 1;
      var b0 := if b < i then b else b + 1;
      assert o'[a] == o[a0] && o'[b] == o[b0];
    }
  }

  /** `remove` keeps the queued slots free of repetitions. */
  lemma RemoveFromOrderDistinct(o: seq<int>, slot: int)
    requires Distinct(o)
    ensures Distinct(RemoveFromOrder(o, slot))
  {
    if |o| > 1 {
      var i := FindPos(o, |o|, slot);
      if i < |o| {
        DistinctWithout(o, i);
      } else {
        DistinctWithout(o, |o| - 1);
        assert o[..|o| - 1] + o[|o|..] == o[..|o| - 1];
      }
    }
  }

  lemma {:induction false} RemovedWellFormed(st: IndexState, cap: nat, slot: int, slotIsSelf: bool)
    requires WellFormed(st, cap)
    ensures WellFormed(Removed(st, slot, slotIsSelf), cap)
  {
    RemovedOrder(st, slot, slotIsSelf);
    RemoveFromOrderDistinct(Order(st), slot);
  }

  /** Removing an entry that is listed drops exactly that entry. */
  lemma {:induction false} RemoveListed(o: seq<int>, slot: int)
    requires slot in o
    ensures var i := FindPos(o, |o|, slot);
            i < |o| && RemoveFromOrder(o, slot) == o[..i] + o[i + 1..]
  {
    var i := FindPos(o, |o|, slot);
    if |o| <= 1 {
      assert o[..i] + o[i + 1..] == [];
    }
  }

  /** The round-robin step of `queueHandler`: back to the oldest entry after the newest one
      or before an empty position, otherwise on to the next. */
  function NextLevel(st: IndexState): (l: nat)
    ensures l == 0 || l == st.level + 1
    ensures l == st.level + 1 ==> l < |st.idx|
  {
    if st.level + 1 == st.size || At(st.idx, st.level + 1) == Empty then 0 else st.level + 1
  }

  /** In a well-formed state the step walks the queued entries cyclically. */
  lemma NextLevelCycles(st: IndexState, cap: nat)
    requires WellFormed(st, cap) && st.level < st.size
    ensures NextLevel(st) == if st.level + 1 < st.size then st.level + 1 else 0
    ensures NextLevel(st) < st.size
  {
    if st.level + 1 < st.size {
      assert st.idx[st.level + 1] >= 0;
    }
  }

  /** The cursor keeps its meaning across `remove`: when it was not on the removed position it
      still names the same entry; when it was, the next round-robin step lands on the removed
      entry's successor (cyclically). */
  lemma CursorStable(st: IndexState, slot: int, slotIsSelf: bool)
    requires st.size > 1 && st.size <= |st.idx| && st.level < st.size
    requires FindPos(st.idx, st.size, slot) < st.size
    ensures var pos := FindPos(st.idx, st.size, slot);
            var r := Removed(st, slot, slotIsSelf);
            && r.level < r.size
            && (st.level != pos ==> r.idx[r.level] == st.idx[st.level])
            && (st.level == pos ==>
                  r.idx[if r.level + 1 < r.size then r.level + 1 else 0]
                  == st.idx[if pos + 1 < st.size then pos + 1 else 0])
  {
    var pos := FindPos(st.idx, st.size, slot);
    var r := Removed(st, slot, slotIsSelf);
    var n := st.size - 1;
    RemovedShiftsLeft(st, slot, slotIsSelf);
    if st.level < pos {
      assert r.level == st.level;
    } else if st.level > pos {
      assert r.level == st.level - 1;
    } else if pos == 0 {
      assert r.level == n - 1;
    } else {
      assert r.level == pos - 1;
    }
  }

  // ---------------------------------------------------------------------------------------
  // the free-slot search of queue (EtherEventQueue.cpp:361-375)

  /** The first empty position, or |idx| when there is none. */
  function FirstEmpty(idx: seq<int>): (f: nat)
    ensures f <= |idx|
    ensures f < |idx| ==> idx[f] == Empty
    ensures forall q :: 0 <= q < f ==> idx[q] != Empty
  {
    if idx == [] then 0
    else if idx[0] == Empty then 0
    else 1 + FirstEmpty(idx[1..])
  }

  /** A slot counts as occupied when it appears before the first empty marker. */
  predicate Listed(idx: seq<int>, s: int) {
    s in idx[..FirstEmpty(idx)]
  }

  /** The slot `queue` picks: the smallest slot not listed, or |idx| when every slot is. */
  function FreeSlot(idx: seq<int>): (s: nat)
    ensures s <= |idx|
    ensures s < |idx| ==> !Listed(idx, s)
    ensures forall t :: 0 <= t < s ==> Listed(idx, t)
  {
    FreeSlotFrom(idx, 0)
  }

  function FreeSlotFrom(idx: seq<int>, from: nat): (s: nat)
    requires from <= |idx|
    requires forall t :: 0 <= t < from ==> Listed(idx, t)
    ensures from <= s <= |idx|
    ensures s < |idx| ==> !Listed(idx, s)
    ensures forall t :: 0 <= t < s ==> Listed(idx, t)
    decreases |idx| - from
  {
    if from == |idx| || !Listed(idx, from) then from else FreeSlotFrom(idx, from + 1)
  }

  /** In a well-formed state a slot the search finds is not queued. */
  lemma FreeSlotNotQueued(st: IndexState, cap: nat)
    requires WellFormed(st, cap) && FreeSlot(st.idx) < cap
    ensures FreeSlot(st.idx) !in Order(st)
  {
    var f := FirstEmpty(st.idx);
    assert f >= st.size;
    assert Order(st) == st.idx[..f][..st.size];
  }

  // ---------------------------------------------------------------------------------------
  // queue (EtherEventQueue.cpp:338-389)

  /** Appending a slot at order position `size` and counting one more new event. */
  function Inserted(st: IndexState, slot: int): (r: IndexState)
    requires st.size < |st.idx|
    ensures |r.idx| == |st.idx| && r.size == st.size + 1
  {
    IndexState(st.idx[st.size := slot], st.size + 1, st.level, (st.newCount + 1) % TWO8, st.internal)
  }

  /** Appending a slot that is not queued keeps the state well formed and makes it the newest. */
  lemma {:induction false} InsertedOrder(st: IndexState, cap: nat, slot: int)
    requires WellFormed(st, cap) && st.size < cap && 0 <= slot < cap && slot !in Order(st)
    ensures Order(Inserted(st, slot)) == Order(st) + [slot]
    ensures WellFormed(Inserted(st, slot), cap)
  {
    var r := Inserted(st, slot);
    assert Order(r) == Order(st) + [slot];
    var o := Order(st);
    assert forall i :: 0 <= i < |o| ==> o[i] != slot;
  }

  /** Where `queue` put the event: the new bookkeeping, the slot (|idx| when the search found
      none) and whether the queue overflowed. */
  datatype Placement = Placement(st: IndexState, slot: int, overflow: bool)

  /** `queue` after its admission checks: `selfTarget` says whether the target is this device,
      `selfs[s]` whether slot s currently holds an event to this device. */
  function Enqueue(st: IndexState, selfTarget: bool, selfs: seq<bool>): (r: Placement)
    requires WellFormed(st, |st.idx|) && |selfs| == |st.idx|
    ensures r.overflow <==> st.size == |st.idx|
    ensures 0 <= r.slot <= |st.idx| && r.st.size <= |st.idx| && |r.st.idx| == |st.idx|
    ensures r.slot < |st.idx| ==> r.st.size == (if r.overflow then st.size else st.size + 1)
    ensures r.slot == |st.idx| ==> r.st.size == st.size
  {
    var st1 := st.(internal := if selfTarget then (st.internal + 1) % TWO8 else st.internal);
    var v := Vacated(st1, selfs);
    if v.slot < |st.idx| then v.(st := Inserted(v.st, v.slot)) else v
  }

  /** Enqueue in two steps: the count of internal events is raised first, then a slot is
      vacated and, when there is one, filled. */
  lemma EnqueueSteps(st: IndexState, selfTarget: bool, selfs: seq<bool>)
    requires WellFormed(st, |st.idx|) && |selfs| == |st.idx|
    ensures var st1 := st.(internal := if selfTarget then (st.internal + 1) % TWO8 else st.internal);
            var v := Vacated(st1, selfs);
            var p := Enqueue(st, selfTarget, selfs);
            && p.slot == v.slot && p.overflow == v.overflow
            && p.st == (if v.slot < |st.idx| then Inserted(v.st, v.slot) else v.st)
  {
  }

  /** The slot `queue` fills: at capacity the newest entry's slot, after removing that entry;
      otherwise the first free slot (|idx| when the search finds none). */
  function Vacated(st: IndexState, selfs: seq<bool>): (r: Placement)
    requires WellFormed(st, |st.idx|) && |selfs| == |st.idx|
    ensures 0 <= r.slot <= |st.idx| && |r.st.idx| == |st.idx|
    ensures r.overflow <==> st.size == |st.idx|
    ensures r.overflow ==> r.slot < |st.idx|
    ensures r.slot < |st.idx| ==> r.st.size < |st.idx|
    ensures r.slot == |st.idx| ==> r.st == st
  {
    if st.size == |st.idx| then
      var slot := st.idx[st.size - 1];
      Placement(Removed(st, slot, selfs[slot]), slot, true)
    else
      Placement(st, FreeSlot(st.idx), false)
  }

  /** Below capacity the new event takes a slot that was not queued and becomes the newest. */
  lemma EnqueueBelowCapacity(st: IndexState, selfTarget: bool, selfs: seq<bool>)
    requires WellFormed(st, |st.idx|) && |selfs| == |st.idx| && st.size < |st.idx|
    requires FreeSlot(st.idx) < |st.idx|
    ensures var r := Enqueue(st, selfTarget, selfs);
            && r.slot == FreeSlot(st.idx) && r.slot !in Order(st)
            && Order(r.st) == Order(st) + [r.slot]
            && r.st.newCount == (st.newCount + 1) % TWO8 && r.st.level == st.level
            && r.st.internal == (if selfTarget then (st.internal + 1) % TWO8 else st.internal)
  {
    FreeSlotNotQueued(st, |st.idx|);
    var r := Enqueue(st, selfTarget, selfs);
    assert Order(r.st) == Order(st) + [r.slot];
  }

  /** At capacity the newest entry's slot is reused: the order of slots is unchanged and the
      size stays at capacity. */
  lemma {:induction false} EnqueueAtCapacity(st: IndexState, selfTarget: bool, selfs: seq<bool>)
    requires WellFormed(st, |st.idx|) && |selfs| == |st.idx| && st.size == |st.idx|
    ensures var r := Enqueue(st, selfTarget, selfs);
            && r.overflow && r.slot == Order(st)[st.size - 1]
            && Order(r.st) == Order(st) && r.st.size == |st.idx|
  {
    var r := Enqueue(st, selfTarget, selfs);
    var o := Order(st);
    var st1 := st.(internal := if selfTarget then (st.internal + 1) % TWO8 else st.internal);
    var slot := o[st.size - 1];
    RemovedOrder(st1, slot, selfs[slot]);
    if st.size > 1 {
      FindPosUnique(o, |o|, slot, st.size - 1);
      assert RemoveFromOrder(o, slot) == o[..st.size - 1];
    }
    assert Order(r.st) == RemoveFromOrder(o, slot) + [slot];
  }

  /** Changing only the two counters keeps the bookkeeping well formed and the order. */
  lemma CountersOnly(st: IndexState, st': IndexState)
    requires WellFormed(st, |st.idx|)
    requires st'.idx == st.idx && st'.size == st.size && st'.level == st.level
    requires st'.newCount < TWO8 && st'.internal < TWO8
    ensures WellFormed(st', |st.idx|) && Order(st') == Order(st)
  {
  }

  /** Taking the `k`-th entry out and queueing its slot again as the newest entry keeps the
      bookkeeping well formed and moves that slot to the end of the order. */
  lemma {:induction false} ReusedSlot(st: IndexState, k: nat, slotIsSelf: bool)
    requires WellFormed(st, |st.idx|) && k < st.size
    ensures var o := Order(st);
            var r := Inserted(Removed(st, o[k], slotIsSelf), o[k]);
            WellFormed(r, |st.idx|) && Order(r) == o[..k] + o[k + 1..] + [o[k]]
  {
    var o := Order(st);
    var slot := o[k];
    FindPosUnique(o, |o|, slot, k);
    RemovedOrder(st, slot, slotIsSelf);
    RemovedWellFormed(st, |st.idx|, slot, slotIsSelf);
    RemoveListed(o, slot);
    var removed := Removed(st, slot, slotIsSelf);
    var rest := o[..k] + o[k + 1..];
    assert Order(removed) == rest;
    assert slot !in rest by {
      forall i | 0 <= i < |rest|
        ensures rest[i] != slot
      {
        if i < k {
          assert rest[i] == o[i];
        } else {
          assert rest[i] == o[i + 1];
        }
      }
    }
    InsertedOrder(removed, |st.idx|, slot);
  }

  /** Filling the slot the search found keeps the bookkeeping well formed. */
  lemma FillFreeWellFormed(st: IndexState)
    requires WellFormed(st, |st.idx|) && st.size < |st.idx| && FreeSlot(st.idx) < |st.idx|
    ensures WellFormed(Inserted(st, FreeSlot(st.idx)), |st.idx|)
  {
    FreeSlotNotQueued(st, |st.idx|);
    InsertedOrder(st, |st.idx|, FreeSlot(st.idx));
  }

  /** `queue` keeps the bookkeeping well formed. */
  lemma EnqueueWellFormed(st: IndexState, selfTarget: bool, selfs: seq<bool>)
    requires WellFormed(st, |st.idx|) && |selfs| == |st.idx|
    ensures WellFormed(Enqueue(st, selfTarget, selfs).st, |st.idx|)
  {
    var st1 := st.(internal := if selfTarget then (st.internal + 1) % TWO8 else st.internal);
    assert WellFormed(st1, |st.idx|);
    EnqueueSteps(st, selfTarget, selfs);
    if st.size == |st.idx| {
      ReusedSlot(st1, st.size - 1, selfs[st.idx[st.size - 1]]);
    } else if FreeSlot(st.idx) < |st.idx| {
      FillFreeWellFormed(st1);
    }
  }

  // ---------------------------------------------------------------------------------------
  // begin (EtherEventQueue.cpp:79-84)

  /** The index `begin` sets up: every position empty and all counters zero. */
  function Initial(cap: nat): (r: IndexState)
    requires 1 <= cap
    ensures WellFormed(r, cap) && Order(r) == []
    ensures forall p :: 0 <= p < cap ==> r.idx[p] == Empty
  {
    IndexState(seq(cap, _ => Empty), 0, 0, 0, 0)
  }

  // ---------------------------------------------------------------------------------------
  // flushQueue (EtherEventQueue.cpp:510-515)

  /** `flushQueue` resets the three counters and nothing else. */
  function Flushed(st: IndexState): (r: IndexState)
    ensures r.idx == st.idx && r.level == st.level && r.size == 0
    ensures Order(r) == [] && r.newCount == 0 && r.internal == 0
  {
    st.(size := 0, newCount := 0, internal := 0)
  }

  lemma FlushedWellFormed(st: IndexState, cap: nat)
    requires WellFormed(st, cap)
    ensures WellFormed(Flushed(st), cap)
  {
  }

  // ---------------------------------------------------------------------------------------
  // the ack handler of availableEvent (EtherEventQueue.cpp:223-237)

  /** The ack handler's loop from `count` on: slot numbers `count .. queueSize-1` are checked
      (as positions), and each whose id is `ack` and whose type is Confirm is removed, with
      `queueNewCount` clamped to the new size. The bound is re-read after every removal. */
  function AckSweep(st: IndexState, ids: seq<int>, types: seq<EventType>, selfs: seq<bool>,
                    ack: int, count: nat): (r: IndexState)
    requires st.size <= |st.idx| && |ids| == |types| == |selfs| == |st.idx|
    ensures |r.idx| == |st.idx| && r.size <= st.size
    decreases |st.idx| - count
  {
    if count >= st.size then st
    else if ids[count] == ack && types[count] == Confirm then
      var removed := Removed(st, count, selfs[count]);
      var clamped := if removed.newCount > removed.size then removed.(newCount := removed.size)
                     else removed;
      AckSweep(clamped, ids, types, selfs, ack, count + 1)
    else
      AckSweep(st, ids, types, selfs, ack, count + 1)
  }

  predicate AckMatches(ids: seq<int>, types: seq<EventType>, ack: int, s: int)
    requires |ids| == |types|
  {
    0 <= s < |ids| && ids[s] == ack && types[s] == Confirm
  }

  lemma {:induction false} AckSweepNoMatch(st: IndexState, ids: seq<int>, types: seq<EventType>,
                                          selfs: seq<bool>, ack: int, count: nat)
    requires st.size <= |st.idx| && |ids| == |types| == |selfs| == |st.idx|
    requires forall s :: count <= s < st.size ==> !AckMatches(ids, types, ack, s)
    ensures AckSweep(st, ids, types, selfs, ack, count) == st
    decreases |st.idx| - count
  {
    if count < st.size {
      assert !AckMatches(ids, types, ack, count);
      AckSweepNoMatch(st, ids, types, selfs, ack, count + 1);
    }
  }

  lemma {:induction false} AckSweepWellFormed(st: IndexState, ids: seq<int>, types: seq<EventType>,
                                             selfs: seq<bool>, ack: int, count: nat)
    requires WellFormed(st, |st.idx|) && |ids| == |types| == |selfs| == |st.idx|
    ensures WellFormed(AckSweep(st, ids, types, selfs, ack, count), |st.idx|)
    decreases |st.idx| - count
  {
    if count < st.size {
      if ids[count] == ack && types[count] == Confirm {
        RemovedWellFormed(st, |st.idx|, count, selfs[count]);
        var removed := Removed(st, count, selfs[count]);
        var clamped := if removed.newCount > removed.size then removed.(newCount := removed.size)
                       else removed;
        AckSweepWellFormed(clamped, ids, types, selfs, ack, count + 1);
      } else {
        AckSweepWellFormed(st, ids, types, selfs, ack, count + 1);
      }
    }
  }

  /** An ack whose id belongs to exactly one slot, a queued Confirm event whose slot number is
      below the queue size, removes that event and no other. */
  lemma {:induction false} AckRemovesMatch(st: IndexState, ids: seq<int>, types: seq<EventType>,
                                          selfs: seq<bool>, ack: int, m: nat)
    requires WellFormed(st, |st.idx|) && |ids| == |types| == |selfs| == |st.idx|
    requires m < st.size && m in Order(st) && AckMatches(ids, types, ack, m)
    requires forall s :: 0 <= s < |ids| && s != m ==> !AckMatches(ids, types, ack, s)
    ensures var o := Order(st);
            var i := FindPos(o, |o|, m);
            i < |o| && Order(AckSweep(st, ids, types, selfs, ack, 0)) == o[..i] + o[i + 1..]
  {
    AckSweepReaches(st, ids, types, selfs, ack, 0, m);
    var removed := Removed(st, m, selfs[m]);
    var clamped := if removed.newCount > removed.size then removed.(newCount := removed.size)
                   else removed;
    AckSweepNoMatch(clamped, ids, types, selfs, ack, m + 1);
    RemovedOrder(st, m, selfs[m]);
    RemoveListed(Order(st), m);
  }

  lemma {:induction false} AckSweepReaches(st: IndexState, ids: seq<int>, types: seq<EventType>,
                                          selfs: seq<bool>, ack: int, count: nat, m: nat)
    requires st.size <= |st.idx| && |ids| == |types| == |selfs| == |st.idx|
    requires count <= m < st.size
    requires forall s :: count <= s < m ==> !AckMatches(ids, types, ack, s)
    ensures AckSweep(st, ids, types, selfs, ack, count) == AckSweep(st, ids, types, selfs, ack, m)
    decreases m - count
  {
    if count < m {
      assert !AckMatches(ids, types, ack, count);
      AckSweepReaches(st, ids, types, selfs, ack, count + 1, m);
    }
  }

  // ---------------------------------------------------------------------------------------
  // departures from what the design intends, with the intended behaviour beside them

  /** As written, an overflowing queue reuses the newest entry's slot: with slots 0, 1, 2
      holding A, B, C, the event D replaces C, so the queue holds A, B, D. */
  lemma OverflowEvictsNewest()
    ensures var st := IndexState([0, 1, 2], 3, 0, 0, 0);
            var r := Enqueue(st, false, [false, false, false]);
            r.overflow && r.slot == 2 && Order(r.st) == [0, 1, 2]
  {
    var st := IndexState([0, 1, 2], 3, 0, 0, 0);
    EnqueueAtCapacity(st, false, [false, false, false]);
  }

  /** The intended overflow: the oldest entry's slot is reused by the new event. */
  function EnqueueEvictingOldest(st: IndexState, selfTarget: bool, selfs: seq<bool>): (r: Placement)
    requires WellFormed(st, |st.idx|) && |selfs| == |st.idx| && st.size == |st.idx|
    ensures r.overflow && r.slot == Order(st)[0]
  {
    var st1 := st.(internal := if selfTarget then (st.internal + 1) % TWO8 else st.internal);
    var slot := st.idx[0];
    Placement(Inserted(Removed(st1, slot, selfs[slot]), slot), slot, true)
  }

  /** The intended overflow drops the oldest entry and appends the new one as the newest,
      keeping the state well formed. */
  lemma {:induction false} EvictingOldestOrder(st: IndexState, selfTarget: bool, selfs: seq<bool>)
    requires WellFormed(st, |st.idx|) && |selfs| == |st.idx| && st.size == |st.idx|
    ensures var r := EnqueueEvictingOldest(st, selfTarget, selfs);
            && WellFormed(r.st, |st.idx|)
            && Order(r.st) == Order(st)[1..] + [Order(st)[0]]
  {
    var st1 := st.(internal := if selfTarget then (st.internal + 1) % TWO8 else st.internal);
    CountersOnly(st, st1);
    var o := Order(st);
    var slot := st.idx[0];
    assert slot == o[0];
    ReusedSlot(st1, 0, selfs[slot]);
    assert o[..0] + o[1..] == o[1..];
    assert EnqueueEvictingOldest(st, selfTarget, selfs).st
        == Inserted(Removed(st1, slot, selfs[slot]), slot);
  }

  /** With slots 0, 1, 2 holding A, B, C, the intended overflow puts D in A's slot, so the
      queue holds B, C, D. */
  lemma OverflowEvictingOldestScenario()
    ensures var st := IndexState([0, 1, 2], 3, 0, 0, 0);
            var r := EnqueueEvictingOldest(st, false, [false, false, false]);
            r.slot == 0 && Order(r.st) == [1, 2, 0]
  {
    EvictingOldestOrder(IndexState([0, 1, 2], 3, 0, 0, 0), false, [false, false, false]);
  }

  /** As written, an overflow while every queued event is still new counts one new event more
      than the queue holds: the evicted newest event was new, yet the count is only raised. */
  lemma NewCountExceedsSize()
    ensures var r := Enqueue(IndexState([0, 1, 2], 3, 0, 3, 0), false, [false, false, false]);
            r.overflow && r.st.size == 3 && r.st.newCount == 4
  {
    EnqueueAtCapacity(IndexState([0, 1, 2], 3, 0, 3, 0), false, [false, false, false]);
  }

  /** The new-event count as intended: an evicted event that was still new (the new events
      are the newest ones) stops being counted, so the count never exceeds the queue size. */
  function EnqueueCountingEvicted(st: IndexState, selfTarget: bool, selfs: seq<bool>): (r: Placement)
    requires WellFormed(st, |st.idx|) && |selfs| == |st.idx|
    ensures r.st.size <= |r.st.idx|
    ensures var p := Enqueue(st, selfTarget, selfs);
            r.slot == p.slot && r.overflow == p.overflow && Order(r.st) == Order(p.st)
    ensures st.newCount <= st.size ==> r.st.newCount <= r.st.size
  {
    var p := Enqueue(st, selfTarget, selfs);
    if p.overflow && st.newCount > 0 then p.(st := p.st.(newCount := st.newCount)) else p
  }

  /** As written, `remove` clears position `queueSize + 1` instead of `queueSize`, so removing
      the newest entry of a full queue leaves its slot listed, and the next `queue` call finds
      no free slot although the queue holds two entries out of three. */
  lemma StaleTailHidesFreeSlot()
    ensures var r := Removed(IndexState([0, 1, 2], 3, 0, 0, 0), 2, false);
            r.size == 2 && r.idx == [0, 1, 2] && FreeSlot(r.idx) == 3
  {
    var r := Removed(IndexState([0, 1, 2], 3, 0, 0, 0), 2, false);
    assert r.idx == [0, 1, 2];
    assert Listed(r.idx, 0) && Listed(r.idx, 1) && Listed(r.idx, 2);
  }

  /** Every order position from `size` on is empty. */
  predicate CleanTail(st: IndexState) {
    forall p :: st.size <= p < |st.idx| ==> st.idx[p] == Empty
  }

  /** `remove` as intended: the vacated position `queueSize` is cleared. */
  function RemovedClearingTail(st: IndexState, slot: int, slotIsSelf: bool): (r: IndexState)
    requires st.size <= |st.idx|
    ensures |r.idx| == |st.idx| && r.size <= |r.idx|
    ensures Order(r) == RemoveFromOrder(Order(st), slot)
    ensures CleanTail(st) ==> CleanTail(r)
  {
    var r0 := Removed(st, slot, slotIsSelf);
    RemovedOrder(st, slot, slotIsSelf);
    if r0.size < |r0.idx| then r0.(idx := r0.idx[r0.size := Empty]) else r0
  }

  /** With a clean tail the search always finds a slot while the queue is not full. */
  lemma {:induction false} CleanTailHasFreeSlot(st: IndexState, cap: nat)
    requires WellFormed(st, cap) && CleanTail(st) && st.size < cap
    ensures FreeSlot(st.idx) < cap
  {
    assert FirstEmpty(st.idx) == st.size by {
      assert st.idx[st.size] == Empty;
    }
    if FreeSlot(st.idx) == cap {
      forall s | 0 <= s < cap ensures s in Order(st) {
        assert Listed(st.idx, s);
      }
      Pigeonhole(Order(st), 0, cap);
      assert false;
    }
  }

  /** As written, `flushQueue` keeps the order index: after flushing a full queue of three,
      every slot is still listed and the next `queue` call finds no free slot. */
  lemma FlushKeepsIndex()
    ensures var r := Flushed(IndexState([0, 1, 2], 3, 2, 3, 0));
            Order(r) == [] && FreeSlot(r.idx) == 3 && r.level == 2
  {
    var r := Flushed(IndexState([0, 1, 2], 3, 2, 3, 0));
    assert Listed(r.idx, 0) && Listed(r.idx, 1) && Listed(r.idx, 2);
  }

  /** `flushQueue` as intended: the order index is emptied and the cursor reset. */
  function FlushedClearingIndex(st: IndexState): (r: IndexState)
    ensures |r.idx| == |st.idx| && r.size == 0 && CleanTail(r)
    ensures Order(r) == [] && r.newCount == 0 && r.internal == 0 && r.level == 0
    ensures 1 <= |st.idx| ==> WellFormed(r, |st.idx|) && FreeSlot(r.idx) == 0
  {
    var r := IndexState(seq(|st.idx|, _ => Empty), 0, 0, 0, 0);
    assert 1 <= |st.idx| ==> FreeSlot(r.idx) == 0 by {
      if 1 <= |st.idx| {
        CleanTailHasFreeSlot(r, |st.idx|);
        assert FirstEmpty(r.idx) == 0;
      }
    }
    r
  }

  /** As written, the ack handler checks slot numbers below the queue size instead of the
      queued slots: a Confirm event in slot 2 of a queue holding only that event is never
      released by its ack. */
  lemma AckMissesHighSlot()
    ensures var st := IndexState([2, -1, -1], 1, 0, 0, 0);
            var r := AckSweep(st, [10, 11, 12], [Once, Once, Confirm], [false, false, false], 12, 0);
            Order(r) == [2]
  {
  }

  /** As written, a second ack for the same id (as a resent Confirm event produces) finds the
      stale slot number 0 at position 0 and removes whatever `remove(0)` then reaches: with a
      Confirm event (id 10) in slot 0 and a Once event in slot 1, the first ack leaves [1]
      and the second empties the queue. */
  lemma DuplicateAckDropsUnrelated()
    ensures var st := IndexState([0, 1], 2, 0, 0, 0);
            var ids := [10, 11];
            var types := [Confirm, Once];
            var first := AckSweep(st, ids, types, [false, false], 10, 0);
            var second := AckSweep(first, ids, types, [false, false], 10, 0);
            Order(first) == [1] && Order(second) == []
  {
  }

  /** As written, a stale slot below the queue size that matches makes `remove` drop an
      unrelated entry while the queued match stays: with slots 1 and 2 queued, both slot 0
      (not queued) and slot 1 holding Confirm id 10, the ack leaves [1]. */
  lemma StaleAckMatchDropsOther()
    ensures var st := IndexState([1, 2, -1], 2, 0, 0, 0);
            var r := AckSweep(st, [10, 10, 12], [Confirm, Confirm, Once], [false, false, false], 10, 0);
            Order(r) == [1]
  {
  }

  /** The ack handler as intended: every queued Confirm event whose id matches leaves the
      queue, and every other queued event stays, in order. */
  function AckIntended(o: seq<int>, ids: seq<int>, types: seq<EventType>, ack: int): (r: seq<int>)
    requires |ids| == |types|
    ensures forall s :: s in r <==> s in o && !AckMatches(ids, types, ack, s)
    ensures |r| <= |o|
  {
    if o == [] then []
    else
      (if AckMatches(ids, types, ack, o[0]) then [] else [o[0]]) + AckIntended(o[1..], ids, types, ack)
  }

  /** The intended handler works entry by entry, in order: the kept entries of an earlier part
      of the queue come before those of a later part. */
  lemma {:induction false} AckIntendedAppend(a: seq<int>, b: seq<int>, ids: seq<int>,
                                            types: seq<EventType>, ack: int)
    requires |ids| == |types|
    ensures AckIntended(a + b, ids, types, ack) == AckIntended(a, ids, types, ack) + AckIntended(b, ids, types, ack)
  {
    if a == [] {
      assert a + b == b;
    } else {
      assert (a + b)[0] == a[0];
      assert (a + b)[1..] == a[1..] + b;
      AckIntendedAppend(a[1..], b, ids, types, ack);
    }
  }

  /** An ack that matches no queued entry keeps the queue as it is. */
  lemma {:induction false} AckIntendedNoMatch(o: seq<int>, ids: seq<int>, types: seq<EventType>, ack: int)
    requires |ids| == |types|
    requires forall i :: 0 <= i < |o| ==> !AckMatches(ids, types, ack, o[i])
    ensures AckIntended(o, ids, types, ack) == o
  {
    if o != [] {
      AckIntendedNoMatch(o[1..], ids, types, ack);
      assert o == [o[0]] + o[1..];
    }
  }

  /** An ack whose one queued match sits at order position i removes exactly that entry and
      keeps the others in order. */
  lemma AckIntendedRemovesMatch(o: seq<int>, ids: seq<int>, types: seq<EventType>, ack: int, i: nat)
    requires |ids| == |types| && i < |o| && AckMatches(ids, types, ack, o[i])
    requires forall j :: 0 <= j < |o| && j != i ==> !AckMatches(ids, types, ack, o[j])
    ensures AckIntended(o, ids, types, ack) == o[..i] + o[i + 1..]
  {
    var before, after := o[..i], o[i + 1..];
    calc {
      AckIntended(o, ids, types, ack);
      { assert o == before + ([o[i]] + after); }
      AckIntended(before + ([o[i]] + after), ids, types, ack);
      { AckIntendedAppend(before, [o[i]] + after, ids, types, ack); }
      AckIntended(before, ids, types, ack) + AckIntended([o[i]] + after, ids, types, ack);
      { AckIntendedAppend([o[i]], after, ids, types, ack); }
      AckIntended(before, ids, types, ack) + (AckIntended([o[i]], ids, types, ack) + AckIntended(after, ids, types, ack));
      { assert forall j :: 0 <= j < |before| ==> before[j] == o[j];
        AckIntendedNoMatch(before, ids, types, ack);
        assert forall j :: 0 <= j < |after| ==> after[j] == o[i + 1 + j];
        AckIntendedNoMatch(after, ids, types, ack);
        MatchDropped(o[i], ids, types, ack); }
      before + ([] + after);
      { assert [] + after == after; }
      before + after;
    }
  }

  lemma MatchDropped(x: int, ids: seq<int>, types: seq<EventType>, ack: int)
    requires |ids| == |types| && AckMatches(ids, types, ack, x)
    ensures AckIntended([x], ids, types, ack) == []
  {
    assert [x][1..] == [];
  }

  /** In the duplicate-ack situation the intended handler keeps the Once event. */
  lemma DuplicateAckKeepsUnrelated()
    ensures AckIntended([1], [10, 11], [Confirm, Once], 10) == [1]
  {
  }
}
