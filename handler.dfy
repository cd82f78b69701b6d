/** The choice of the event `queueHandler` sends (EtherEventQueue.cpp:414-462) and the internal
    delivery of `availableEvent` (EtherEventQueue.cpp:140-153), stated on the bookkeeping value
    of OrderIndex and on per-slot facts the class computes from its arrays. */
module Handler {
  import opened Types
  import opened OrderIndex

  /** What the selection loop does with a chosen slot: skip an event to this device, take an
      event whose target is no node, is heard from or overrides the timeout, and dump an event
      to a timed-out node. */
  datatype Verdict = Skip | Take | Dump

  function VerdictFor(targetNode: int, nodeDevice: nat, heard: bool, t: EventType): (v: Verdict)
    ensures v == Skip <==> targetNode == nodeDevice
    ensures v == Dump <==> 0 <= targetNode && targetNode != nodeDevice && !heard && t != OverrideTimeout
  {
    if targetNode == nodeDevice then Skip
    else if targetNode < 0 then Take
    else if heard || t == OverrideTimeout then Take
    else Dump
  }

  /** One step of the loop: while new events remain, the oldest new one (order position
      size - newCount); otherwise the next position round robin, which also restarts the resend
      delay (`stamped`). */
  datatype Step = Step(st: IndexState, slot: int, stamped: bool)

  function Choose(st: IndexState): (c: Step)
    ensures c.st.idx == st.idx && c.st.size == st.size && c.st.internal == st.internal
    ensures st.newCount > 0 ==> c.st.newCount == st.newCount - 1 && c.st.level == st.level
    ensures st.newCount == 0 ==> c.st.newCount == 0 && c.st.level == NextLevel(st) && c.stamped
  {
    if st.newCount == 0 then
      var l := NextLevel(st);
      Step(st.(level := l), At(st.idx, l), true)
    else
      Step(st.(newCount := st.newCount - 1), At(st.idx, st.size - st.newCount), false)
  }

  /** While new events are waiting (and no more of them than queued events), the step picks
      the oldest of them, a queued slot. */
  lemma ChooseOldestNew(st: IndexState, cap: nat)
    requires WellFormed(st, cap) && 0 < st.newCount <= st.size
    ensures Choose(st).slot == Order(st)[st.size - st.newCount] >= 0
  {
  }

  /** With no new events the step walks the queued events cyclically from the cursor. */
  lemma ChooseRoundRobin(st: IndexState, cap: nat)
    requires WellFormed(st, cap) && st.newCount == 0 && st.level < st.size
    ensures Choose(st).slot == Order(st)[if st.level + 1 < st.size then st.level + 1 else 0]
  {
    NextLevelCycles(st, cap);
  }

  lemma ChooseWellFormed(st: IndexState, cap: nat)
    requires WellFormed(st, cap)
    ensures WellFormed(Choose(st).st, cap)
  {
  }

  /** How the selection ends: the queue emptied (return true), nothing to send, or a slot to
      send. */
  datatype Outcome = Emptied | NoSend | Send(slot: nat)

  datatype Pick = Pick(st: IndexState, outcome: Outcome, stamped: bool)

  /** The selection loop as written, from iteration `counter` on; `last` is the slot chosen by
      the previous iteration. When the loop runs out of iterations the last chosen slot is
      sent, whatever its verdict. A chosen position outside the queue arrays ends the call
      without a send. */
  function Select(st: IndexState, verdicts: seq<Verdict>, selfs: seq<bool>, counter: nat,
                  last: int, stamped: bool): (p: Pick)
    requires st.size <= |st.idx| && |verdicts| == |selfs| == |st.idx|
    ensures |p.st.idx| == |st.idx| && p.st.size <= st.size
    ensures p.outcome.Send? ==> p.outcome.slot < |st.idx|
    decreases st.size - counter
  {
    if counter >= st.size then
      Pick(st, if 0 <= last < |st.idx| then Send(last) else NoSend, stamped)
    else
      var c := Choose(st);
      var stamped' := stamped || c.stamped;
      if !(0 <= c.slot < |st.idx|) then Pick(c.st, NoSend, stamped')
      else match verdicts[c.slot]
        case Skip => Select(c.st, verdicts, selfs, counter + 1, c.slot, stamped')
        case Take => Pick(c.st, Send(c.slot), stamped')
        case Dump =>
          var r := Removed(c.st, c.slot, selfs[c.slot]);
          if r.size == 0 then Pick(r, Emptied, stamped')
          else Select(r, verdicts, selfs, counter + 1, c.slot, stamped')
  }

  /** The selection once the loop has run out of iterations. */
  lemma SelectDone(st: IndexState, verdicts: seq<Verdict>, selfs: seq<bool>, counter: nat,
                   last: int, stamped: bool)
    requires st.size <= |st.idx| && |verdicts| == |selfs| == |st.idx| && counter >= st.size
    ensures Select(st, verdicts, selfs, counter, last, stamped)
            == Pick(st, if 0 <= last < |st.idx| then Send(last) else NoSend, stamped)
  {
  }

  /** One iteration of the selection loop, case by case. */
  lemma SelectStep(st: IndexState, verdicts: seq<Verdict>, selfs: seq<bool>, counter: nat,
                   last: int, stamped: bool)
    requires st.size <= |st.idx| && |verdicts| == |selfs| == |st.idx| && counter < st.size
    ensures var c := Choose(st);
            var p := Select(st, verdicts, selfs, counter, last, stamped);
            var stamped' := stamped || c.stamped;
            && (!(0 <= c.slot < |st.idx|) ==> p == Pick(c.st, NoSend, stamped'))
            && (0 <= c.slot < |st.idx| && verdicts[c.slot] == Skip ==>
                  p == Select(c.st, verdicts, selfs, counter + 1, c.slot, stamped'))
            && (0 <= c.slot < |st.idx| && verdicts[c.slot] == Take ==> p == Pick(c.st, Send(c.slot), stamped'))
            && (0 <= c.slot < |st.idx| && verdicts[c.slot] == Dump ==>
                  var r := Removed(c.st, c.slot, selfs[c.slot]);
                  p == if r.size == 0 then Pick(r, Emptied, stamped')
                       else Select(r, verdicts, selfs, counter + 1, c.slot, stamped'))
  {
  }

  /** One iteration of the selection keeps the bookkeeping well formed: it either ends the
      selection in a well-formed state or leaves the rest of it to run from one. */
  lemma SelectStepWellFormed(st: IndexState, verdicts: seq<Verdict>, selfs: seq<bool>,
                             counter: nat, last: int, stamped: bool)
    returns (next: IndexState, last': int, stamped': bool, done: bool)
    requires WellFormed(st, |st.idx|) && |verdicts| == |selfs| == |st.idx| && counter < st.size
    ensures WellFormed(next, |st.idx|) && next.size <= st.size
    ensures done ==> Select(st, verdicts, selfs, counter, last, stamped).st == next
    ensures !done ==> Select(st, verdicts, selfs, counter, last, stamped)
                      == Select(next, verdicts, selfs, counter + 1, last', stamped')
  {
    var c := Choose(st);
    ChooseWellFormed(st, |st.idx|);
    next, last', stamped', done := c.st, c.slot, stamped || c.stamped, true;
    if 0 <= c.slot < |st.idx| {
      if verdicts[c.slot] == Skip {
        done := false;
      } else if verdicts[c.slot] == Dump {
        RemovedWellFormed(c.st, |st.idx|, c.slot, selfs[c.slot]);
        next := Removed(c.st, c.slot, selfs[c.slot]);
        done := next.size == 0;
      }
    }
  }

  /** The selection keeps the bookkeeping well formed. */
  lemma {:induction false} SelectWellFormed(st: IndexState, verdicts: seq<Verdict>, selfs: seq<bool>,
                                           counter: nat, last: int, stamped: bool)
    requires WellFormed(st, |st.idx|) && |verdicts| == |selfs| == |st.idx|
    ensures WellFormed(Select(st, verdicts, selfs, counter, last, stamped).st, |st.idx|)
    decreases st.size - counter
  {
    if counter < st.size {
      var next, last', stamped', done := SelectStepWellFormed(st, verdicts, selfs, counter, last, stamped);
      if !done {
        SelectWellFormed(next, verdicts, selfs, counter + 1, last', stamped');
      }
    }
  }

  /** As written, an event dumped in the loop's last iteration is still sent: with slot 0
      (to a timed-out node) and slot 1 queued, the cursor on position 1 and no new events, the
      handler dumps slot 0 and then sends it. Its removal after the send then finds slot 0 no
      longer listed and, the queue holding one event, empties it: slot 1 is lost unsent. */
  lemma SendsDumpedEvent()
    ensures var st := IndexState([0, 1, -1], 2, 1, 0, 0);
            var p := Select(st, [Dump, Take, Take], [false, false, false], 0, -1, false);
            && p == Pick(IndexState([1, 1, -1], 1, 0, 0, 0), Send(0), true)
            && Order(p.st) == [1]
            && Order(Removed(p.st, 0, false)) == []
  {
    var st := IndexState([0, 1, -1], 2, 1, 0, 0);
    var c := Choose(st);
    assert c.slot == 0;
    var r := Removed(c.st, 0, false);
    assert r.idx == [1, 1, -1];
  }

  /** The selection as intended: when the loop runs out of iterations nothing is sent. */
  function SelectIntended(st: IndexState, verdicts: seq<Verdict>, selfs: seq<bool>, counter: nat,
                          stamped: bool): (p: Pick)
    requires st.size <= |st.idx| && |verdicts| == |selfs| == |st.idx|
    ensures |p.st.idx| == |st.idx|
    ensures p.outcome.Send? ==> p.outcome.slot < |st.idx| && verdicts[p.outcome.slot] == Take
    decreases st.size - counter
  {
    if counter >= st.size then Pick(st, NoSend, stamped)
    else
      var c := Choose(st);
      var stamped' := stamped || c.stamped;
      if !(0 <= c.slot < |st.idx|) then Pick(c.st, NoSend, stamped')
      else match verdicts[c.slot]
        case Skip => SelectIntended(c.st, verdicts, selfs, counter + 1, stamped')
        case Take => Pick(c.st, Send(c.slot), stamped')
        case Dump =>
          var r := Removed(c.st, c.slot, selfs[c.slot]);
          if r.size == 0 then Pick(r, Emptied, stamped')
          else SelectIntended(r, verdicts, selfs, counter + 1, stamped')
  }

  /** In the same situation the intended selection sends nothing and slot 1 stays queued. */
  lemma DumpedEventNotSent()
    ensures var st := IndexState([0, 1, -1], 2, 1, 0, 0);
            var p := SelectIntended(st, [Dump, Take, Take], [false, false, false], 0, false);
            p.outcome == NoSend && Order(p.st) == [1]
  {
    var st := IndexState([0, 1, -1], 2, 1, 0, 0);
    var c := Choose(st);
    assert c.slot == 0;
    var r := Removed(c.st, 0, false);
    assert r.idx == [1, 1, -1];
  }

  // ---------------------------------------------------------------------------------------
  // internal delivery in availableEvent

  /** The slot `availableEvent` delivers: the highest slot number from `q` down to 0 whose
      target is this device, or -1. */
  function LastSelfSlot(selfs: seq<bool>, q: int): (r: int)
    requires -1 <= q < |selfs|
    ensures -1 <= r <= q
    ensures r >= 0 ==> selfs[r]
    ensures forall s :: r < s <= q && 0 <= s ==> !selfs[s]
    decreases q + 1
  {
    if q < 0 then -1 else if selfs[q] then q else LastSelfSlot(selfs, q - 1)
  }

  /** Delivering slot `slot` internally: it is removed and the new-event count is decremented
      as a byte. */
  function Dispatched(st: IndexState, slot: int, slotIsSelf: bool): (r: IndexState)
    requires st.size <= |st.idx|
    ensures |r.idx| == |st.idx| && r.size == (if st.size > 1 then st.size - 1 else 0)
    ensures Order(r) == RemoveFromOrder(Order(st), slot)
    ensures r.newCount == (st.newCount + TWO8 - 1) % TWO8
  {
    RemovedOrder(st, slot, slotIsSelf);
    var removed := Removed(st, slot, slotIsSelf);
    removed.(newCount := (removed.newCount + TWO8 - 1) % TWO8)
  }

  /** As written, the delivery scans slot numbers 0 .. queueSize-1 instead of the queued slots:
      with only slot 2 queued, an event to this device, the scan looks at slot 0 alone and
      delivers nothing. */
  lemma InternalScanMissesHighSlot()
    ensures LastSelfSlot([false, false, true], 1 - 1) == -1
  {
  }

  /** The delivery as intended: the newest queued slot whose target is this device, or -1. */
  function NewestQueuedSelf(o: seq<int>, selfs: seq<bool>): (r: int)
    requires forall i :: 0 <= i < |o| ==> 0 <= o[i] < |selfs|
    ensures r >= 0 ==> r in o && selfs[r]
    ensures r >= 0 ==> exists k :: 0 <= k < |o| && o[k] == r && forall j :: k < j < |o| ==> !selfs[o[j]]
    ensures r == -1 <==> forall i :: 0 <= i < |o| ==> !selfs[o[i]]
  {
    if o == [] then -1
    else if selfs[o[|o| - 1]] then o[|o| - 1]
    else NewestQueuedSelf(o[..|o| - 1], selfs)
  }

  /** As written, the delivery also counts the delivered event as new although the handler may
      already have counted it: with events to this device (slot 0) and to another node
      (slot 1) queued as new, the handler skips slot 0, sends slot 1 and removes it; delivering
      slot 0 then leaves the new-event count at 255 in an empty queue. */
  lemma NewCountUnderflows()
    ensures var st := IndexState([0, 1, -1], 2, 0, 2, 1);
            var selfs := [true, false, false];
            var p := Select(st, [Skip, Take, Take], selfs, 0, -1, false);
            var sent := Removed(p.st, 1, false);
            var delivered := Dispatched(sent, LastSelfSlot(selfs, sent.size - 1), true);
            && p.outcome == Send(1)
            && delivered.size == 0 && delivered.newCount == 255
  {
    var st := IndexState([0, 1, -1], 2, 0, 2, 1);
    var c := Choose(st);
    assert c.slot == 0;
    var c2 := Choose(c.st);
    assert c2.slot == 1;
  }

  /** What `Dispatched` adds to `remove`: only the new-event counter changes. */
  lemma DispatchedAfterRemove(st: IndexState, slot: int, slotIsSelf: bool)
    requires st.size <= |st.idx|
    ensures var removed := Removed(st, slot, slotIsSelf);
            Dispatched(st, slot, slotIsSelf) == removed.(newCount := (removed.newCount + TWO8 - 1) % TWO8)
  {
  }

  /** The delivery decrement as intended: it saturates at zero, so the new-event count never
      exceeds the queue size. */
  function DispatchedIntended(st: IndexState, slot: int, slotIsSelf: bool): (r: IndexState)
    requires st.size <= |st.idx|
    ensures |r.idx| == |st.idx| && r.size == (if st.size > 1 then st.size - 1 else 0)
    ensures Order(r) == RemoveFromOrder(Order(st), slot)
    ensures st.newCount <= st.size ==> r.newCount <= r.size
  {
    RemovedOrder(st, slot, slotIsSelf);
    var removed := Removed(st, slot, slotIsSelf);
    removed.(newCount := if removed.newCount > 0 then removed.newCount - 1 else 0)
  }
}
