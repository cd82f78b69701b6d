/** The EtherEventQueue object: an outgoing event queue with resends, acks and node liveness
    tracking, over fixed-size arrays allocated by `begin`. Each method follows the code of
    EtherEventQueue.cpp and states its effect through the pure definitions of OrderIndex,
    Handler, Liveness, EventIds, Wire and Policy. */
module EventQueue {
  import opened Types
  import opened OrderIndex
  import opened EventIds
  import opened Liveness
  import opened Wire
  import opened Policy
  import opened Handler

  const NodeTimeoutDurationDefault: u32 := 270000
  const SendKeepaliveMarginDefault: u32 := 30000
  const SendKeepaliveResendDelayDefault: u32 := 60000
  const ResendDelayDefault: u32 := 45000
  /** There are ninety two-digit event ids; `begin` allows at most ninety queue slots. */
  const QueueSizeLimit: nat := 90

  /** An event as the EtherEvent receiver offers it: the byte count `availableEvent`
      reports, the event text, the raw payload and the sender's address. */
  datatype Frame = Frame(length: byte, event: string, rawPayload: string, sender: Address)

  /** An event handed to the EtherEvent sender. */
  datatype Outgoing = Outgoing(ip: Address, port: u16, event: string, payload: string)

  /** `strncpy(dst, s, max); dst[max] = 0`: at most `max` characters of s. */
  function Truncate(s: string, max: nat): (r: string)
    ensures |r| <= max && |r| <= |s| && r == s[..|r|]
    ensures |s| <= max ==> r == s
  {
    if |s| <= max then s else s[..max]
  }

  /** An array store that is dropped when the index is past the array. */
  function StoreAt<T>(a: seq<T>, i: int, v: T): (r: seq<T>)
    ensures |r| == |a|
    ensures forall j :: 0 <= j < |a| ==> r[j] == if j == i then v else a[j]
  {
    if 0 <= i < |a| then a[i := v] else a
  }

  /** One queue slot. The source keeps its fields in the parallel arrays IPqueue, portQueue,
      eventQueue, eventIDqueue, payloadQueue and eventTypeQueue, all indexed by slot number. */
  datatype Slot = Slot(ip: Address, port: u16, event: string, id: byte, payload: string, t: EventType)

  /** The event ids of the given slots, in order. */
  function SlotIds(slots: seq<Slot>): (r: seq<int>)
    ensures |r| == |slots| && forall i :: 0 <= i < |slots| ==> r[i] == slots[i].id as int
  {
    seq(|slots|, i requires 0 <= i < |slots| => slots[i].id as int)
  }

  /** The event types of the given slots, in order. */
  function SlotTypes(slots: seq<Slot>): (r: seq<EventType>)
    ensures |r| == |slots| && forall i :: 0 <= i < |slots| ==> r[i] == slots[i].t
  {
    seq(|slots|, i requires 0 <= i < |slots| => slots[i].t)
  }

  /** Per slot: whether its target address is `device`. */
  function SelfFlagsOf(slots: seq<Slot>, device: Address): (s: seq<bool>)
    ensures |s| == |slots| && forall q :: 0 <= q < |slots| ==> s[q] == (slots[q].ip == device)
  {
    seq(|slots|, q requires 0 <= q < |slots| => slots[q].ip == device)
  }

  /** Per slot: the verdict of the selection loop, from the slot's target address and event
      type, the node table's addresses and timestamps, the timeout and the clock. */
  function VerdictsOf(slots: seq<Slot>, nodeIPs: seq<Address>, stamps: seq<u32>,
                      device: nat, timeout: u32, now: u32): (v: seq<Verdict>)
    requires |stamps| == |nodeIPs|
    ensures |v| == |slots|
  {
    seq(|slots|, s requires 0 <= s < |slots| =>
      var node := FindNode(nodeIPs, slots[s].ip);
      VerdictFor(node, device, 0 <= node && Heard(now, stamps[node], timeout), slots[s].t))
  }

  class EtherEventQueue {
    const queueSizeMax: nat
    const nodeCount: nat
    const nodeDevice: nat
    const sendEventLengthMax: byte
    const sendPayloadLengthMax: byte
    /** Whether the Ethernet library reports the sender's address (`ethernetclientwithremoteIP_h`). */
    const senderIPAvailable: bool

    var nodeTimeoutDuration: u32
    var sendKeepaliveMargin: u32
    var sendKeepaliveResendDelay: u32
    var resendDelay: u32
    var sendNodesOnlyState: bool
    var receiveNodesOnlyState: bool
    var eventKeepalive: Option<string>
    var eventAck: Option<string>

    // node table
    const nodeIP: array<Address>
    const nodeState: array<NodeState>
    const nodeTimestamp: array<u32>
    const sendKeepaliveTimestamp: array<u32>

    /** The queue slots, by slot number. */
    const slots: array<Slot>

    /** Queued slot numbers, oldest first, -1 for empty positions. */
    const queueIndex: array<int>
    var queueSize: nat
    var queueNewCount: nat
    var internalEventQueueCount: nat
    var queuePriorityLevel: nat
    var queueOverflowFlag: bool
    var queueSendTimestamp: u32

    // receive buffers
    var receivedEvent: string
    var receivedPayload: string
    var receivedEventLength: byte
    var receivedEventIdValue: byte

    /** The queue bookkeeping as a value. */
    ghost function IState(): IndexState
      reads this`queueSize, this`queuePriorityLevel, this`queueNewCount, this`internalEventQueueCount, queueIndex
    {
      IndexState(queueIndex[..], queueSize, queuePriorityLevel, queueNewCount, internalEventQueueCount)
    }

    /** The invariant of the object: the fixed sizes and distinct buffers, and a well-formed
        order index. */
    ghost predicate Valid()
      reads this`queueSize, this`queuePriorityLevel, this`queueNewCount, this`internalEventQueueCount, queueIndex
    {
      Shaped() && WellFormed(IState(), queueSizeMax)
    }

    /** The sizes fixed by `begin`: every queue array has `queueSizeMax` slots, every node
        array `nodeCount` entries, and the buffers the source keeps apart are distinct. */
    ghost predicate Shaped() {
      && 1 <= queueSizeMax <= QueueSizeLimit && nodeDevice < nodeCount < TWO8
      && queueIndex.Length == queueSizeMax && slots.Length == queueSizeMax
      && nodeIP.Length == nodeCount && nodeState.Length == nodeCount
      && nodeTimestamp.Length == nodeCount && sendKeepaliveTimestamp.Length == nodeCount
      && nodeTimestamp != sendKeepaliveTimestamp
    }

    /** `begin(nodeDevice, nodeCount, queueSizeMax, sendEventLengthMax, sendPayloadLengthMax, ...)`
        on a fresh object: the node table holds only this device's address, the queue is
        empty and at most ninety slots long. */
    constructor (nodeDeviceInput: byte, nodeCountInput: byte, queueSizeMaxInput: byte,
                 sendEventLengthMaxInput: byte, sendPayloadLengthMaxInput: byte,
                 localIP: Address, senderIPAvailableInput: bool)
      requires nodeDeviceInput < TWO8 - 1
      requires 1 <= queueSizeMaxInput
      ensures Valid()
      ensures nodeDevice == nodeDeviceInput
      ensures nodeCount == if nodeDeviceInput + 1 > nodeCountInput then nodeDeviceInput + 1 else nodeCountInput
      ensures queueSizeMax == if queueSizeMaxInput < QueueSizeLimit then queueSizeMaxInput else QueueSizeLimit
      ensures IState() == Initial(queueSizeMax)
      ensures forall n :: 0 <= n < nodeCount ==> nodeIP[n] == if n == nodeDevice then localIP else Unset
      ensures nodeTimeoutDuration == NodeTimeoutDurationDefault && sendKeepaliveMargin == SendKeepaliveMarginDefault
      ensures sendKeepaliveResendDelay == SendKeepaliveResendDelayDefault && resendDelay == ResendDelayDefault
      ensures eventKeepalive == None && eventAck == None
      ensures receivedEvent == "" && receivedPayload == "" && receivedEventLength == 0
    {
      var count := if nodeDeviceInput + 1 > nodeCountInput then nodeDeviceInput + 1 else nodeCountInput;
      var cap := if queueSizeMaxInput < QueueSizeLimit then queueSizeMaxInput else QueueSizeLimit;
      nodeDevice := nodeDeviceInput;
      nodeCount := count;
      queueSizeMax := cap;
      sendEventLengthMax := sendEventLengthMaxInput;
      sendPayloadLengthMax := sendPayloadLengthMaxInput;
      senderIPAvailable := senderIPAvailableInput;
      nodeTimeoutDuration := NodeTimeoutDurationDefault;
      sendKeepaliveMargin := SendKeepaliveMarginDefault;
      sendKeepaliveResendDelay := SendKeepaliveResendDelayDefault;
      resendDelay := ResendDelayDefault;
      sendNodesOnlyState := false;
      receiveNodesOnlyState := false;
      eventKeepalive := None;
      eventAck := None;
      nodeState := new NodeState[count](_ => Unknown);
      nodeTimestamp := new u32[count](_ => 0);
      sendKeepaliveTimestamp := new u32[count](_ => 0);
      slots := new Slot[cap](_ => Slot(Unset, 0, "", 0, "", Once));
      queueSize := 0;
      queueNewCount := 0;
      internalEventQueueCount := 0;
      queuePriorityLevel := 0;
      queueOverflowFlag := false;
      queueSendTimestamp := 0;
      receivedEvent := "";
      receivedPayload := "";
      receivedEventLength := 0;
      receivedEventIdValue := 0;
      var index := new int[cap](_ => Empty);
      assert index[..] == Initial(cap).idx;
      queueIndex := index;
      nodeIP := new Address[count](n => if n == nodeDeviceInput then localIP else Unset);
    }

    /** The order position p as the source reads it (-1 outside the array). */
    function IndexAt(p: int): (v: int)
      reads this, queueIndex
      ensures v == At(queueIndex[..], p)
    {
      if 0 <= p < queueIndex.Length then queueIndex[p] else Empty
    }

    /** Per slot: whether its target address is this device's. */
    ghost function SelfFlags(): (s: seq<bool>)
      reads slots, nodeIP
      requires nodeDevice < nodeIP.Length
      ensures |s| == slots.Length
    {
      SelfFlagsOf(slots[..], nodeIP[nodeDevice])
    }

    // -------------------------------------------------------------------------------------
    // remove (EtherEventQueue.cpp:901-942)

    method Remove(slot: nat)
      requires Valid() && slot < queueSizeMax
      modifies this`queueSize, this`queuePriorityLevel, this`internalEventQueueCount, queueIndex
      ensures Valid()
      ensures IState() == Removed(old(IState()), slot, slots[slot].ip == nodeIP[nodeDevice])
    {
      ghost var st := IState();
      ghost var self := slots[slot].ip == nodeIP[nodeDevice];
      RemovedWellFormed(st, queueSizeMax, slot, self);
      if slots[slot].ip == nodeIP[nodeDevice] {
        if internalEventQueueCount > 0 {
          internalEventQueueCount := internalEventQueueCount - 1;
        }
      }
      Unlink(slot, st, self);
    }

    /** The order-index part of `remove`: the entry is shifted out and the level adjusted. */
    method Unlink(slot: nat, ghost st: IndexState, ghost self: bool)
      requires 1 <= queueIndex.Length == |st.idx| && queueIndex[..] == st.idx
      requires queueSize == st.size <= |st.idx| && queuePriorityLevel == st.level
      modifies this`queueSize, this`queuePriorityLevel, queueIndex
      ensures var r := Removed(st, slot, self);
              queueIndex[..] == r.idx && queueSize == r.size && queuePriorityLevel == r.level
    {
      if queueSize > 1 {
        var pos := FindOrderPos(slot);
        queueSize := queueSize - 1;
        ShiftOut(pos, queueSize);
        if queuePriorityLevel >= pos {
          if queuePriorityLevel == 0 {
            queuePriorityLevel := queueSize - 1;
          } else {
            queuePriorityLevel := queuePriorityLevel - 1;
          }
        }
      } else {
        queueSize := 0;
        queueIndex[0] := Empty;
      }
    }

    /** The search loop of `remove`: the first order position holding the slot. */
    method FindOrderPos(slot: int) returns (pos: nat)
      requires queueSize <= queueIndex.Length
      ensures pos == FindPos(queueIndex[..], queueSize, slot)
    {
      pos := 0;
      while pos < queueSize && queueIndex[pos] != slot
        invariant pos <= queueSize
        invariant forall q :: 0 <= q < pos ==> queueIndex[q] != slot
      {
        pos := pos + 1;
      }
      FindPosUnique(queueIndex[..], queueSize, slot, pos);
    }

    /** The shifting loop of `remove` and the clearing write after it. */
    method ShiftOut(pos: nat, n: nat)
      requires n < queueIndex.Length
      modifies queueIndex
      ensures queueIndex[..] == Shifted(old(queueIndex[..]), pos, n, (if pos < n then n else pos) + 1)
    {
      ghost var idx := queueIndex[..];
      var counter := pos;
      while counter < n
        invariant pos <= counter && (counter <= n || counter == pos)
        invariant forall p :: pos <= p < counter ==> queueIndex[p] == idx[p + 1]
        invariant forall p :: 0 <= p < queueIndex.Length && !(pos <= p < counter) ==> queueIndex[p] == idx[p]
      {
        queueIndex[counter] := queueIndex[counter + 1];
        counter := counter + 1;
      }
      ghost var shifted := queueIndex[..];
      if counter + 1 < queueIndex.Length {
        queueIndex[counter + 1] := Empty;
      }
      forall p | 0 <= p < |idx|
        ensures queueIndex[p] == Shifted(idx, pos, n, (if pos < n then n else pos) + 1)[p]
      {
        if p != counter + 1 {
          assert queueIndex[p] == shifted[p];
        }
      }
    }

    // -------------------------------------------------------------------------------------
    // the free-slot search of queue (EtherEventQueue.cpp:361-375)

    method FindFreeSlot() returns (slot: nat)
      requires Valid()
      ensures slot == FreeSlot(queueIndex[..])
    {
      ghost var idx := queueIndex[..];
      slot := 0;
      while slot < queueSizeMax
        invariant slot <= queueSizeMax
        invariant forall t :: 0 <= t < slot ==> Listed(idx, t)
      {
        var counter := 0;
        while counter < queueSizeMax && queueIndex[counter] != slot && queueIndex[counter] != Empty
          invariant counter <= queueSizeMax
          invariant forall q :: 0 <= q < counter ==> idx[q] != slot && idx[q] != Empty
        {
          counter := counter + 1;
        }
        var f := FirstEmpty(idx);
        if IndexAt(counter) == Empty {
          assert f == counter;
          assert slot !in idx[..f];
          assert !Listed(idx, slot);
          break;
        }
        assert f > counter && idx[..f][counter] == slot;
        slot := slot + 1;
      }
    }

    // -------------------------------------------------------------------------------------
    // eventIDfind (EtherEventQueue.cpp:873-895)

    method EventIdFind() returns (id: byte)
      requires queueSize <= slots.Length
      ensures id == if queueSize == 0 then FirstId else FirstFreeId(SlotIds(slots[..queueSize]))
    {
      if queueSize == 0 {
        return FirstId;
      }
      ghost var used := SlotIds(slots[..queueSize]);
      var eventId: nat := FirstId;
      while eventId <= LastId
        invariant FirstId <= eventId <= LastId + 1
        invariant forall x :: FirstId <= x < eventId ==> x in used
      {
        var duplicate := false;
        var count := 0;
        while count < queueSize
          invariant count <= queueSize
          invariant duplicate <==> eventId in used[..count]
        {
          assert used[..count + 1] == used[..count] + [used[count]];
          if eventId == slots[count].id {
            duplicate := true;
          }
          count := count + 1;
        }
        assert used[..count] == used;
        if !duplicate {
          return eventId;
        }
        eventId := eventId + 1;
      }
      return 0;
    }

    // -------------------------------------------------------------------------------------
    // flushQueue (EtherEventQueue.cpp:510-515)

    /** Empties the queue by resetting the counters; the order index keeps its entries. */
    method FlushQueue()
      requires Valid()
      modifies this`queueSize, this`queueNewCount, this`internalEventQueueCount
      ensures Valid()
      ensures IState() == Flushed(old(IState()))
    {
      queueSize := 0;
      queueNewCount := 0;
      internalEventQueueCount := 0;
      FlushedWellFormed(old(IState()), queueSizeMax);
    }

    // -------------------------------------------------------------------------------------
    // checkQueueOverflow (EtherEventQueue.cpp:581-587)

    /** Reports whether an event was dropped since the last call, and resets the report. */
    method CheckQueueOverflow() returns (overflowed: bool)
      modifies this`queueOverflowFlag
      ensures overflowed == old(queueOverflowFlag) && !queueOverflowFlag
    {
      overflowed := queueOverflowFlag;
      queueOverflowFlag := false;
    }

    // -------------------------------------------------------------------------------------
    // the configuration setters (EtherEventQueue.cpp:592-596, 612-616, 632-646, 686-689,
    // 727-731, 747-757, 807-817)

    method SetResendDelay(resendDelayValue: u32)
      modifies this`resendDelay
      ensures resendDelay == resendDelayValue
    {
      resendDelay := resendDelayValue;
    }

    method SetNodeTimeoutDuration(nodeTimeoutDurationValue: u32)
      modifies this`nodeTimeoutDuration
      ensures nodeTimeoutDuration == nodeTimeoutDurationValue
    {
      nodeTimeoutDuration := nodeTimeoutDurationValue;
    }

    method ReceiveNodesOnly(receiveNodesOnlyValue: bool)
      modifies this`receiveNodesOnlyState
      ensures receiveNodesOnlyState == receiveNodesOnlyValue
    {
      receiveNodesOnlyState := receiveNodesOnlyValue;
    }

    method SendNodesOnly(sendNodesOnlyValue: bool)
      modifies this`sendNodesOnlyState
      ensures sendNodesOnlyState == sendNodesOnlyValue
    {
      sendNodesOnlyState := sendNodesOnlyValue;
    }

    /** The margin is capped at the node timeout, so that a keepalive falls due before the
        node times out (Liveness.KeepaliveBeforeTimeout). A later, shorter timeout is not
        re-checked. */
    method SetSendKeepaliveMargin(sendKeepaliveMarginInput: u32)
      modifies this`sendKeepaliveMargin
      ensures sendKeepaliveMargin <= nodeTimeoutDuration && sendKeepaliveMargin <= sendKeepaliveMarginInput
      ensures sendKeepaliveMargin == sendKeepaliveMarginInput || sendKeepaliveMargin == nodeTimeoutDuration
    {
      sendKeepaliveMargin := if sendKeepaliveMarginInput < nodeTimeoutDuration then sendKeepaliveMarginInput
                             else nodeTimeoutDuration;
    }

    method SetSendKeepaliveResendDelay(sendKeepaliveResendDelayInput: u32)
      modifies this`sendKeepaliveResendDelay
      ensures sendKeepaliveResendDelay == sendKeepaliveResendDelayInput
    {
      sendKeepaliveResendDelay := sendKeepaliveResendDelayInput;
    }

    /** The string overload; allocation never fails in the model. */
    method SetEventKeepalive(eventKeepaliveInput: string) returns (ok: bool)
      modifies this`eventKeepalive
      ensures ok && eventKeepalive == Some(eventKeepaliveInput)
    {
      eventKeepalive := Some(eventKeepaliveInput);
      ok := true;
    }

    method SetEventAck(eventAckInput: string) returns (ok: bool)
      modifies this`eventAck
      ensures ok && eventAck == Some(eventAckInput)
    {
      eventAck := Some(eventAckInput);
      ok := true;
    }

    // -------------------------------------------------------------------------------------
    // the receive buffer (EtherEventQueue.cpp:249-295)

    /** The payload length counting its terminating NUL, or 0 for no payload; the length is
        first narrowed to a byte. */
    method AvailablePayload() returns (length: byte)
      ensures receivedPayload == "" ==> length == 0
      ensures 0 < |receivedPayload| < TWO8 - 1 ==> length == |receivedPayload| + 1
      ensures length == 0 <==> |receivedPayload| % TWO8 == 0 || |receivedPayload| % TWO8 == TWO8 - 1
    {
      var l := ToByte(|receivedPayload|);
      if l != 0 {
        return ToByte(l as int + 1);
      }
      return 0;
    }

    /** Hands out the buffered event and lets `availableEvent` receive the next one. */
    method ReadEvent() returns (event: string)
      modifies this`receivedEventLength
      ensures event == receivedEvent && receivedEventLength == 0
    {
      event := receivedEvent;
      receivedEventLength := 0;
    }

    method ReadPayload() returns (payload: string)
      ensures payload == receivedPayload
    {
      payload := receivedPayload;
    }

    method FlushReceiver()
      modifies this`receivedEvent, this`receivedPayload, this`receivedEventLength
      ensures receivedEvent == "" && receivedPayload == "" && receivedEventLength == 0
    {
      receivedEvent := "";
      receivedPayload := "";
      receivedEventLength := 0;
    }

    // -------------------------------------------------------------------------------------
    // the node table (EtherEventQueue.cpp:655-665, 948-956)

    /** `getNode`: the node configured with this address, or -1. */
    function NodeOf(ip: Address): (node: int)
      reads nodeIP
      ensures -1 <= node < nodeIP.Length
      ensures node >= 0 ==> nodeIP[node] == ip && IsSet(ip)
      ensures node == -1 ==> !IsSet(ip) || ip !in nodeIP[..]
    {
      FindNode(nodeIP[..], ip)
    }

    method NodeIsSet(nodeNumber: nat) returns (set_: bool)
      requires nodeNumber < nodeIP.Length
      ensures set_ <==> nodeIP[nodeNumber] != Unset
    {
      set_ := IsSet(nodeIP[nodeNumber]);
    }

    /** Clears a node's address (out-of-range numbers are ignored); the node is then no
        longer found by address. */
    method RemoveNode(nodeNumber: byte)
      requires Valid()
      modifies nodeIP
      ensures nodeIP[..] == if nodeNumber < nodeCount then old(nodeIP[..])[nodeNumber := Unset]
                            else old(nodeIP[..])
      ensures forall ip :: nodeNumber < nodeCount ==> NodeOf(ip) != nodeNumber
    {
      if nodeNumber < nodeCount {
        nodeIP[nodeNumber] := Unset;
      }
    }

    // -------------------------------------------------------------------------------------
    // checkTimeout, checkTimein, checkState (EtherEventQueue.cpp:521-575)

    /** Reports the first configured node that was Active and has expired, marking it
        TimedOut; -1 when there is none. The node number is returned as an int8_t. */
    method CheckTimeout(now: u32) returns (node: i8)
      requires Valid()
      modifies nodeState
      ensures var f := FirstNewlyTimedOut(nodeIP[..], old(nodeState[..]), nodeTimestamp[..], now,
                                          nodeTimeoutDuration, 0);
              node == ReportedNode(f)
              && nodeState[..] == if f >= 0 then old(nodeState[..])[f := TimedOut] else old(nodeState[..])
    {
      ghost var states := nodeState[..];
      var n := 0;
      while n < nodeCount
        invariant n <= nodeCount && nodeState[..] == states
        invariant FirstNewlyTimedOut(nodeIP[..], states, nodeTimestamp[..], now, nodeTimeoutDuration, 0)
               == FirstNewlyTimedOut(nodeIP[..], states, nodeTimestamp[..], now, nodeTimeoutDuration, n)
      {
        if IsSet(nodeIP[n]) && nodeState[n] == Active && Expired(now, nodeTimestamp[n], nodeTimeoutDuration) {
          nodeState[n] := TimedOut;
          return ReportedNode(n);
        }
        n := n + 1;
      }
      return ReportedNode(-1);
    }

    /** Reports the first configured node that was TimedOut and has been heard from within
        the timeout, marking it Active; -1 when there is none. */
    method CheckTimein(now: u32) returns (node: i8)
      requires Valid()
      modifies nodeState
      ensures var f := FirstNewlyTimedIn(nodeIP[..], old(nodeState[..]), nodeTimestamp[..], now,
                                         nodeTimeoutDuration, 0);
              node == ReportedNode(f)
              && nodeState[..] == if f >= 0 then old(nodeState[..])[f := Active] else old(nodeState[..])
    {
      ghost var states := nodeState[..];
      var n := 0;
      while n < nodeCount
        invariant n <= nodeCount && nodeState[..] == states
        invariant FirstNewlyTimedIn(nodeIP[..], states, nodeTimestamp[..], now, nodeTimeoutDuration, 0)
               == FirstNewlyTimedIn(nodeIP[..], states, nodeTimestamp[..], now, nodeTimeoutDuration, n)
      {
        if IsSet(nodeIP[n]) && nodeState[n] == TimedOut && Heard(now, nodeTimestamp[n], nodeTimeoutDuration) {
          nodeState[n] := Active;
          return ReportedNode(n);
        }
        n := n + 1;
      }
      return ReportedNode(-1);
    }

    /** 1 while the node is within its timeout, 0 once expired, -1 for a node number out of
        range; the node states are not consulted or changed. */
    method CheckState(node: byte, now: u32) returns (status: i8)
      requires Valid()
      ensures status == NodeStatus(nodeTimestamp[..], node, now, nodeTimeoutDuration)
      ensures status == 0 <==> node < nodeCount && Expired(now, nodeTimestamp[node], nodeTimeoutDuration)
      ensures status == 1 <==> node < nodeCount && !Expired(now, nodeTimestamp[node], nodeTimeoutDuration)
    {
      if node > nodeCount - 1 {
        return -1;
      }
      if Expired(now, nodeTimestamp[node], nodeTimeoutDuration) {
        return 0;
      }
      return 1;
    }

    // -------------------------------------------------------------------------------------
    // queue (EtherEventQueue.cpp:301-389)

    /** The admission checks of `queue`: a known event type (with the ack check as written,
        Policy.AcceptsType), and a target that is this device, a node not timed out (or an
        OverrideTimeout event), or any address while non-node targets are allowed. */
    ghost predicate Admits(targetIP: Address, eventType: EventTypeCode, now: u32)
      reads this, nodeIP, nodeTimestamp
      requires nodeTimestamp.Length == nodeIP.Length
    {
      var node := NodeOf(targetIP);
      && AcceptsType(eventType, eventAck.Some?)
      && TargetAdmitted(node, nodeDevice, sendNodesOnlyState,
                        0 <= node && Expired(now, nodeTimestamp[node], nodeTimeoutDuration), eventType.t)
    }

    /** What `queue` stores into a vacant slot: the event and payload cut to their maximum
        lengths, and the id found by `eventIDfind`. */
    function SlotFor(targetIP: Address, port: u16, t: EventType, event: string, payload: string,
                     id: byte): (e: Slot)
      ensures e.ip == targetIP && e.port == port && e.t == t && e.id == id
      ensures |e.event| <= sendEventLengthMax && |e.event| <= |event| && e.event == event[..|e.event|]
      ensures |e.payload| <= sendPayloadLengthMax && |e.payload| <= |payload| && e.payload == payload[..|e.payload|]
    {
      Slot(targetIP, port, Truncate(event, sendEventLengthMax), id, Truncate(payload, sendPayloadLengthMax), t)
    }

    /** The outcome of `queue(targetIP, port, eventType, event, payload)` from the state in
        `old`: refused (0, nothing changed), or placed as Placed says. */
    twostate predicate Queued(r: byte, targetIP: Address, port: u16, eventType: EventTypeCode,
                              event: string, payload: string, now: u32)
      reads this, queueIndex, nodeIP, nodeTimestamp
      reads slots
      requires old(Valid()) && Valid()
    {
      if !old(Admits(targetIP, eventType, now)) then
        && r == 0 && IState() == old(IState()) && queueOverflowFlag == old(queueOverflowFlag)
        && slots[..] == old(slots[..])
      else
        Placed(r, targetIP, port, eventType.t, event, payload,
               Enqueue(old(IState()), old(NodeOf(targetIP)) == nodeDevice, old(SelfFlags())))
    }

    /** An admitted event placed as OrderIndex.Enqueue says, and stored in its slot (result
        1, or 2 when the newest queued event was pushed out to make room), or result 0 with
        only the internal-event count raised when the slot search finds no slot. */
    twostate predicate Placed(r: byte, targetIP: Address, port: u16, t: EventType, event: string,
                              payload: string, p: Placement)
      reads this, queueIndex
      reads slots
      requires old(Valid()) && 0 <= p.slot && p.st.size <= queueSizeMax
    {
      && IState() == p.st
      && queueOverflowFlag == (old(queueOverflowFlag) || p.overflow)
      && if p.slot < queueSizeMax then
           && r == (if p.overflow then 2 else 1)
           && slots[..] == old(slots[..])[p.slot := SlotFor(targetIP, port, t, event, payload,
                                                           FirstFreeId(SlotIds(old(slots[..])[..p.st.size])))]
         else
           r == 0 && slots[..] == old(slots[..])
    }

    /** The main `queue`. */
    method Queue(targetIP: Address, port: u16, eventType: EventTypeCode, event: string,
                 payload: string, now: u32) returns (r: byte)
      requires Valid()
      modifies this`queueSize, this`queueNewCount, this`internalEventQueueCount
      modifies this`queuePriorityLevel, this`queueOverflowFlag, queueIndex
      modifies slots
      ensures Valid()
      ensures Queued(r, targetIP, port, eventType, event, payload, now)
    {
      if !AcceptsType(eventType, eventAck.Some?) {
        return 0;
      }
      var t := eventType.t;
      var targetNode := NodeOf(targetIP);
      if targetNode < 0 {
        if sendNodesOnlyState {
          return 0;
        }
      } else if targetNode == nodeDevice {
        // counted below, in Place
      } else if Expired(now, nodeTimestamp[targetNode], nodeTimeoutDuration) && t != OverrideTimeout {
        return 0;
      }
      r := Place(targetIP, port, t, event, payload, targetNode == nodeDevice,
                 Enqueue(IState(), targetNode == nodeDevice, SelfFlags()));
    }

    /** `queue` after its admission checks: a slot is vacated and the event stored in it. */
    method Place(targetIP: Address, port: u16, t: EventType, event: string, payload: string,
                 selfTarget: bool, ghost p: Placement) returns (r: byte)
      requires Valid() && p == Enqueue(IState(), selfTarget, SelfFlags())
      modifies this`queueSize, this`queueNewCount, this`internalEventQueueCount
      modifies this`queuePriorityLevel, this`queueOverflowFlag, queueIndex
      modifies slots
      ensures Valid()
      ensures Placed(r, targetIP, port, t, event, payload, p)
    {
      ghost var st := IState();
      ghost var selfs := SelfFlags();
      EnqueueWellFormed(st, selfTarget, selfs);
      EnqueueSteps(st, selfTarget, selfs);
      var slot, overflow := Vacate(selfTarget, st, selfs);
      r := Settle(slot, overflow, targetIP, port, t, event, payload, IState());
    }

    /** The end of `queue` once a slot was vacated: result 0 when there is none, otherwise
        the overflow report and the stores into the slot. */
    method Settle(slot: nat, overflow: bool, targetIP: Address, port: u16, t: EventType,
                  event: string, payload: string, ghost st: IndexState) returns (r: byte)
      requires Valid() && slot <= queueSizeMax && st == IState()
      requires slot < queueSizeMax ==> queueSize < queueSizeMax && WellFormed(Inserted(st, slot), queueSizeMax)
      modifies this`queueSize, this`queueNewCount, this`queueOverflowFlag, queueIndex
      modifies slots
      ensures Valid()
      ensures slot == queueSizeMax ==>
                r == 0 && IState() == st && queueOverflowFlag == old(queueOverflowFlag)
                && slots[..] == old(slots[..])
      ensures slot < queueSizeMax ==>
                && r == (if overflow then 2 else 1)
                && queueOverflowFlag == (old(queueOverflowFlag) || overflow)
                && IState() == Inserted(st, slot)
                && slots[..] == old(slots[..])[slot := SlotFor(targetIP, port, t, event, payload,
                                                               FirstFreeId(SlotIds(old(slots[..])[..queueSize])))]
    {
      if slot == queueSizeMax {
        // the source would go on to write past the slot arrays
        return 0;
      }
      r := 1;
      if overflow {
        r := 2;
        queueOverflowFlag := true;
      }
      Store(slot, targetIP, port, event, payload, t);
    }

    /** The middle of `queue`: an event to this device is counted as internal, then the slot
        search, with the removal of the newest event when the queue is full. */
    method Vacate(selfTarget: bool, ghost st: IndexState, ghost selfs: seq<bool>) returns (slot: nat, overflow: bool)
      requires Valid() && st == IState() && selfs == SelfFlags()
      modifies this`queueSize, this`queuePriorityLevel, this`internalEventQueueCount, queueIndex
      ensures Valid()
      ensures var v := Vacated(st.(internal := if selfTarget then (st.internal + 1) % TWO8 else st.internal), selfs);
              IState() == v.st && slot == v.slot && overflow == v.overflow
    {
      ghost var st1 := st.(internal := if selfTarget then (st.internal + 1) % TWO8 else st.internal);
      if selfTarget {
        internalEventQueueCount := (internalEventQueueCount + 1) % TWO8;
      }
      assert IState() == st1;
      if queueSize == queueSizeMax {
        slot := queueIndex[queueSize - 1];
        assert slot == st1.idx[st1.size - 1];
        Remove(slot);
        overflow := true;
      } else {
        slot := FindFreeSlot();
        overflow := false;
      }
    }

    /** The stores of `queue` into a vacant slot: the order index, the slot arrays (with the
        event and payload cut to their maximum lengths and a fresh id from `eventIDfind`) and
        the new-event count. */
    method Store(slot: nat, targetIP: Address, port: u16, event: string, payload: string, t: EventType)
      requires Valid() && slot < queueSizeMax && queueSize < queueSizeMax
      requires WellFormed(Inserted(IState(), slot), queueSizeMax)
      modifies this`queueSize, this`queueNewCount, queueIndex
      modifies slots
      ensures Valid()
      ensures IState() == Inserted(old(IState()), slot)
      ensures slots[..] == old(slots[..])[slot := SlotFor(targetIP, port, t, event, payload,
                                                          FirstFreeId(SlotIds(old(slots[..])[..queueSize])))]
    {
      Append(slot, IState());
      var id := EventIdFind();
      slots[slot] := SlotFor(targetIP, port, t, event, payload, id);
    }

    /** The order-index part of the stores of `queue`: the slot becomes the newest entry and
        counts as a new event. */
    method Append(slot: nat, ghost st: IndexState)
      requires queueIndex.Length == |st.idx| && queueIndex[..] == st.idx
      requires queueSize == st.size < |st.idx| && queueNewCount == st.newCount
      modifies this`queueSize, this`queueNewCount, queueIndex
      ensures var r := Inserted(st, slot);
              queueIndex[..] == r.idx && queueSize == r.size && queueNewCount == r.newCount
    {
      queueSize := queueSize + 1;
      queueIndex[queueSize - 1] := slot;
      queueNewCount := (queueNewCount + 1) % TWO8;
    }

    /** `queue(targetNode, ...)`: a node number past the table or of an unset node is refused;
        otherwise the main `queue` runs with the node's address. */
    method QueueToNode(targetNode: byte, port: u16, eventType: EventTypeCode, event: string,
                       payload: string, now: u32) returns (r: byte)
      requires Valid()
      modifies this`queueSize, this`queueNewCount, this`internalEventQueueCount
      modifies this`queuePriorityLevel, this`queueOverflowFlag, queueIndex
      modifies slots
      ensures Valid()
      ensures targetNode >= nodeCount || !IsSet(nodeIP[targetNode]) ==>
                r == 0 && unchanged(this, queueIndex, slots)
      ensures targetNode < nodeCount && IsSet(nodeIP[targetNode]) ==>
                Queued(r, nodeIP[targetNode], port, eventType, event, payload, now)
    {
      if targetNode >= nodeCount || !IsSet(nodeIP[targetNode]) {
        return 0;
      }
      r := Queue(nodeIP[targetNode], port, eventType, event, payload, now);
    }

    // -------------------------------------------------------------------------------------
    // sendKeepalive (EtherEventQueue.cpp:704-721)

    /** The keepalive test for node n with the current settings. */
    ghost predicate KeepaliveDueFor(n: nat, now: u32)
      reads this, nodeIP, nodeTimestamp, sendKeepaliveTimestamp
      requires n < nodeIP.Length == nodeTimestamp.Length == sendKeepaliveTimestamp.Length
    {
      && n != nodeDevice && IsSet(nodeIP[n])
      && KeepaliveDue(now, nodeTimestamp[n], sendKeepaliveTimestamp[n], nodeTimeoutDuration,
                      sendKeepaliveMargin, sendKeepaliveResendDelay)
    }

    /** Queues the keepalive event (type OverrideTimeout, empty payload) to every other
        configured node that is close to timing out and was not sent one within the resend
        delay, and restarts that node's keepalive delay. */
    method SendKeepalive(port: u16, now: u32)
      requires Valid()
      modifies this`queueSize, this`queueNewCount, this`internalEventQueueCount
      modifies this`queuePriorityLevel, this`queueOverflowFlag, queueIndex
      modifies slots
      modifies sendKeepaliveTimestamp
      ensures Valid()
      ensures forall n :: 0 <= n < nodeCount ==>
                sendKeepaliveTimestamp[n] == if eventKeepalive.Some? && old(KeepaliveDueFor(n, now)) then now
                                             else old(sendKeepaliveTimestamp[n])
      ensures eventKeepalive.None? || eventAck.None? ==>
                IState() == old(IState()) && queueOverflowFlag == old(queueOverflowFlag)
                && slots[..] == old(slots[..])
    {
      if eventKeepalive.None? {
        return;
      }
      var node := 0;
      while node < nodeCount
        invariant node <= nodeCount && Valid()
        invariant forall n :: 0 <= n < node ==>
                    sendKeepaliveTimestamp[n] == if old(KeepaliveDueFor(n, now)) then now
                                                 else old(sendKeepaliveTimestamp[n])
        invariant forall n :: node <= n < nodeCount ==> sendKeepaliveTimestamp[n] == old(sendKeepaliveTimestamp[n])
        invariant eventAck.None? ==>
                    IState() == old(IState()) && queueOverflowFlag == old(queueOverflowFlag)
                    && slots[..] == old(slots[..])
      {
        var _ := KeepaliveNode(node, port, now);
        node := node + 1;
      }
    }

    /** One pass of the sendKeepalive loop: node `node` is sent a keepalive when it is due,
        and `r` is what that `queue` call returned (0 when the node is not due). */
    method KeepaliveNode(node: nat, port: u16, now: u32) returns (r: byte)
      requires Valid() && eventKeepalive.Some? && node < nodeCount
      modifies this`queueSize, this`queueNewCount, this`internalEventQueueCount
      modifies this`queuePriorityLevel, this`queueOverflowFlag, queueIndex
      modifies slots
      modifies sendKeepaliveTimestamp
      ensures Valid()
      ensures sendKeepaliveTimestamp[..]
           == old(sendKeepaliveTimestamp[..])[node := if old(KeepaliveDueFor(node, now)) then now
                                                     else old(sendKeepaliveTimestamp[node])]
      ensures if eventAck.Some? && old(KeepaliveDueFor(node, now))
              then Queued(r, nodeIP[node], port, Known(OverrideTimeout), eventKeepalive.value, "", now)
              else r == 0 && IState() == old(IState()) && queueOverflowFlag == old(queueOverflowFlag)
                   && slots[..] == old(slots[..])
      ensures eventAck.None? ==>
                IState() == old(IState()) && queueOverflowFlag == old(queueOverflowFlag)
                && slots[..] == old(slots[..])
    {
      r := 0;
      if node == nodeDevice || !IsSet(nodeIP[node]) {
        return;
      }
      if KeepaliveDue(now, nodeTimestamp[node], sendKeepaliveTimestamp[node], nodeTimeoutDuration,
                      sendKeepaliveMargin, sendKeepaliveResendDelay) {
        r := QueueKeepalive(node, port, now);
        sendKeepaliveTimestamp[node] := now;
      }
    }

    /** `queue(node, port, eventTypeOverrideTimeout, eventKeepalive)`; with the ack check as
        written (Policy.AckCheckInverted), nothing is queued while no ack event is set. */
    method QueueKeepalive(node: byte, port: u16, now: u32) returns (r: byte)
      requires Valid() && eventKeepalive.Some?
      modifies this`queueSize, this`queueNewCount, this`internalEventQueueCount
      modifies this`queuePriorityLevel, this`queueOverflowFlag, queueIndex
      modifies slots
      ensures Valid()
      ensures node < nodeCount && IsSet(nodeIP[node]) ==>
                Queued(r, nodeIP[node], port, Known(OverrideTimeout), eventKeepalive.value, "", now)
      ensures eventAck.None? ==>
                IState() == old(IState()) && queueOverflowFlag == old(queueOverflowFlag)
                && slots[..] == old(slots[..])
    {
      r := QueueToNode(node, port, Known(OverrideTimeout), eventKeepalive.value, "", now);
      if eventAck.None? && node < nodeCount && IsSet(nodeIP[node]) {
        assert !AcceptsType(Known(OverrideTimeout), false);
        assert !old(Admits(nodeIP[node], Known(OverrideTimeout), now));
      }
    }

    // -------------------------------------------------------------------------------------
    // the traffic bookkeeping of availableEvent and queueHandler (EtherEventQueue.cpp:166-175,
    // 478-487)

    /** Any traffic with `node` counts as hearing from it and as a keepalive sent to it; an
        Unknown node becomes Active. The source narrows getNode's -1 to the byte 255, which is
        past the node arrays: the model drops those stores. */
    method NoteNode(node: byte, now: u32)
      requires Valid()
      modifies nodeTimestamp, sendKeepaliveTimestamp, nodeState
      ensures nodeTimestamp[..] == StoreAt(old(nodeTimestamp[..]), node, now)
      ensures sendKeepaliveTimestamp[..] == StoreAt(old(sendKeepaliveTimestamp[..]), node, Sub32(now, sendKeepaliveResendDelay))
      ensures nodeState[..] == if node < nodeCount && old(nodeState[node]) == Unknown
                               then old(nodeState[..])[node := Active] else old(nodeState[..])
    {
      if node < nodeCount {
        nodeTimestamp[node] := now;
        sendKeepaliveTimestamp[node] := Sub32(now, sendKeepaliveResendDelay);
        if nodeState[node] == Unknown {
          nodeState[node] := Active;
        }
      }
    }

    /** After traffic with `node` at `now` (the node number as the source's byte holds it):
        the device's own timestamp and the node's are now, the node's keepalive delay restarts
        and an Unknown node is Active. Stores past the node arrays are dropped. */
    twostate predicate Traffic(node: byte, now: u32)
      reads this`sendKeepaliveResendDelay, nodeTimestamp, sendKeepaliveTimestamp, nodeState
      requires nodeDevice < nodeTimestamp.Length
    {
      && nodeTimestamp[..] == StoreAt(old(nodeTimestamp[..])[nodeDevice := now], node, now)
      && sendKeepaliveTimestamp[..] == StoreAt(old(sendKeepaliveTimestamp[..]), node, Sub32(now, sendKeepaliveResendDelay))
      && nodeState[..] == if node < nodeState.Length && old(nodeState[node]) == Unknown
                          then old(nodeState[..])[node := Active] else old(nodeState[..])
    }

    twostate predicate NodesUnchanged()
      reads nodeTimestamp, sendKeepaliveTimestamp, nodeState
    {
      && nodeTimestamp[..] == old(nodeTimestamp[..]) && nodeState[..] == old(nodeState[..])
      && sendKeepaliveTimestamp[..] == old(sendKeepaliveTimestamp[..])
    }

    // -------------------------------------------------------------------------------------
    // queueHandler (EtherEventQueue.cpp:414-504)

    /** What the selection loop of `queueHandler` does with each slot, from the node table,
        the slot's target and type, and the clock. */
    ghost function Verdicts(now: u32): (v: seq<Verdict>)
      reads this`nodeTimeoutDuration, slots, nodeIP, nodeTimestamp
      requires nodeTimestamp.Length == nodeIP.Length
      ensures |v| == slots.Length
    {
      VerdictsOf(slots[..], nodeIP[..], nodeTimestamp[..], nodeDevice, nodeTimeoutDuration, now)
    }

    /** Whether `queueHandler` has work: events other than internal ones are queued, and there
        are new events or the resend delay has passed. */
    predicate HandlerDue(now: u32)
      reads this
    {
      queueSize > internalEventQueueCount && (queueNewCount > 0 || Sub32(now, queueSendTimestamp) > resendDelay)
    }

    /** The outcome of `queueHandler` from the state in `old`, with `sendOk` the result of the
        EtherEvent send: nothing to do; the selection of Handler.Select ending without a send;
        or the send of the selected slot (its event id in front of its payload), after which a
        successful send counts as traffic with the target and the slot is removed as
        Policy.RemovedAfterSend says. */
    twostate predicate Handled(ok: bool, new sent: Option<Outgoing>, now: u32, sendOk: bool)
      reads this, queueIndex, nodeIP, nodeTimestamp, sendKeepaliveTimestamp, nodeState
      reads slots
      requires old(Valid()) && Valid()
    {
      if !old(HandlerDue(now)) then
        ok && sent == None && IState() == old(IState()) && queueSendTimestamp == old(queueSendTimestamp)
        && NodesUnchanged()
      else HandlerRan(ok, sent, now, sendOk)
    }

    /** A `queueHandler` call that is due: the selection as Handler.Select says, then the
        chosen event, if any, is sent and released as SendSlot says. */
    twostate predicate HandlerRan(ok: bool, new sent: Option<Outgoing>, now: u32, sendOk: bool)
      reads this, queueIndex, nodeIP, nodeTimestamp, sendKeepaliveTimestamp, nodeState
      reads slots
      requires old(Valid()) && Valid()
    {
      var p := Select(old(IState()), old(Verdicts(now)), old(SelfFlags()), 0, -1, false);
      && queueSendTimestamp == (if p.stamped then now else old(queueSendTimestamp))
      && if p.outcome.Send? then
           var s := p.outcome.slot;
           var e := slots[s];
           && sent == Some(Outgoing(e.ip, e.port, e.event, WirePayload(e.id, e.payload)))
           && ok == sendOk
           && IState() == (if RemovedAfterSend(e.t, sendOk)
                           then Removed(p.st, s, SelfFlags()[s]) else p.st)
           && if sendOk then Traffic(ToByte(NodeOf(e.ip)), now) else NodesUnchanged()
         else
           ok && sent == None && IState() == p.st && NodesUnchanged()
    }

    method QueueHandler(now: u32, sendOk: bool) returns (ok: bool, sent: Option<Outgoing>)
      requires Valid()
      modifies this`queueNewCount, this`queuePriorityLevel, this`queueSendTimestamp
      modifies this`queueSize, this`internalEventQueueCount, queueIndex
      modifies nodeTimestamp, sendKeepaliveTimestamp, nodeState
      ensures Valid()
      ensures Handled(ok, sent, now, sendOk)
    {
      if !HandlerDue(now) {
        return true, None;
      }
      ok, sent := RunHandler(now, sendOk);
    }

    method RunHandler(now: u32, sendOk: bool) returns (ok: bool, sent: Option<Outgoing>)
      requires Valid()
      modifies this`queueNewCount, this`queuePriorityLevel, this`queueSendTimestamp
      modifies this`queueSize, this`internalEventQueueCount, queueIndex
      modifies nodeTimestamp, sendKeepaliveTimestamp, nodeState
      ensures Valid()
      ensures HandlerRan(ok, sent, now, sendOk)
    {
      var outcome := SelectSlot(now);
      if outcome.Send? {
        ok, sent := SendSlot(outcome.slot, now, sendOk);
      } else {
        return true, None;
      }
    }

    /** The selection loop of `queueHandler`, proved against Handler.Select. */
    method SelectSlot(now: u32) returns (outcome: Outcome)
      requires Valid()
      modifies this`queueNewCount, this`queuePriorityLevel, this`queueSendTimestamp
      modifies this`queueSize, this`internalEventQueueCount, queueIndex
      ensures Valid()
      ensures var p := Select(old(IState()), Verdicts(now), SelfFlags(), 0, -1, false);
              IState() == p.st && outcome == p.outcome
              && queueSendTimestamp == if p.stamped then now else old(queueSendTimestamp)
    {
      ghost var verdicts := Verdicts(now);
      ghost var selfs := SelfFlags();
      ghost var p0 := Select(IState(), verdicts, selfs, 0, -1, false);
      var done, result, counter, slotSend, stamped := SelectLoop(now, p0, verdicts, selfs);
      if done {
        return result;
      }
      SelectDone(IState(), verdicts, selfs, counter, slotSend, stamped);
      if 0 <= slotSend < queueSizeMax {
        outcome := Send(slotSend);
      } else {
        outcome := NoSend;
      }
      assert p0 == Pick(IState(), outcome, stamped);
    }

    /** The iterations of the selection loop, until one ends the call or the queue
        has been gone through. */
    method SelectLoop(now: u32, ghost p0: Pick, ghost verdicts: seq<Verdict>, ghost selfs: seq<bool>)
      returns (done: bool, result: Outcome, counter: nat, slotSend: int, ghost stamped: bool)
      requires Valid() && verdicts == Verdicts(now) && selfs == SelfFlags()
      requires Select(IState(), verdicts, selfs, 0, -1, false) == p0
      modifies this`queueNewCount, this`queuePriorityLevel, this`queueSendTimestamp
      modifies this`queueSize, this`internalEventQueueCount, queueIndex
      ensures Valid() && verdicts == Verdicts(now) && selfs == SelfFlags()
      ensures done ==> p0 == Pick(IState(), result, stamped)
      ensures !done ==> counter >= queueSize && Select(IState(), verdicts, selfs, counter, slotSend, stamped) == p0
      ensures queueSendTimestamp == if stamped then now else old(queueSendTimestamp)
    {
      stamped := false;
      counter := 0;
      slotSend := -1;
      while counter < queueSize
        invariant Valid() && verdicts == Verdicts(now) && selfs == SelfFlags()
        invariant Select(IState(), verdicts, selfs, counter, slotSend, stamped) == p0
        invariant queueSendTimestamp == if stamped then now else old(queueSendTimestamp)
        decreases queueSize - counter
      {
        var chosen;
        done, result, chosen, stamped := SelectIteration(counter, slotSend, now, stamped, p0, verdicts, selfs);
        if done {
          return;
        }
        slotSend := chosen;
        counter := counter + 1;
      }
      done, result := false, NoSend;
    }

    /** One iteration of the selection loop from the index state `st`: either the call ends
        with `outcome`, or the loop goes on having chosen `chosen`. */
    method SelectIteration(counter: nat, last: int, now: u32, ghost stamped: bool, ghost p: Pick,
                           ghost verdicts: seq<Verdict>, ghost selfs: seq<bool>)
      returns (done: bool, outcome: Outcome, chosen: int, ghost stamped': bool)
      requires Valid() && counter < queueSize
      requires verdicts == Verdicts(now) && selfs == SelfFlags()
      requires Select(IState(), verdicts, selfs, counter, last, stamped) == p
      modifies this`queueNewCount, this`queuePriorityLevel, this`queueSendTimestamp
      modifies this`queueSize, this`internalEventQueueCount, queueIndex
      ensures Valid()
      ensures if done then p == Pick(IState(), outcome, stamped')
              else Select(IState(), verdicts, selfs, counter + 1, chosen, stamped') == p
      ensures (stamped' == stamped && queueSendTimestamp == old(queueSendTimestamp))
              || (stamped' && queueSendTimestamp == now)
      ensures queueSize <= old(queueSize)
    {
      ghost var st := IState();
      SelectStep(st, verdicts, selfs, counter, last, stamped);
      ghost var c := Choose(st);
      stamped' := stamped || c.stamped;
      chosen := ChooseStep(now, st);
      if !(0 <= chosen < queueSizeMax) {
        // the source would index the slot arrays with this value
        return true, NoSend, chosen, stamped';
      }
      done, outcome := Act(chosen, now, c.st, verdicts, selfs);
    }

    /** What the selection loop does with the chosen slot, by its verdict: skip it, take it
        for sending, or dump it (which ends the call when the queue is then empty). */
    method Act(chosen: nat, now: u32, ghost st: IndexState, ghost verdicts: seq<Verdict>,
               ghost selfs: seq<bool>) returns (done: bool, outcome: Outcome)
      requires Valid() && chosen < queueSizeMax && st == IState()
      requires verdicts == Verdicts(now) && selfs == SelfFlags()
      modifies this`queueSize, this`queuePriorityLevel, this`internalEventQueueCount, queueIndex
      ensures Valid()
      ensures verdicts[chosen] == Skip ==> !done && outcome == NoSend && IState() == st
      ensures verdicts[chosen] == Take ==> done && outcome == Send(chosen) && IState() == st
      ensures verdicts[chosen] == Dump ==>
                && IState() == Removed(st, chosen, selfs[chosen])
                && done == (IState().size == 0) && outcome == (if done then Emptied else NoSend)
      ensures queueSize <= old(queueSize)
    {
      var verdict := Judge(chosen, now, verdicts);
      if verdict == Skip {
        return false, NoSend;
      } else if verdict == Take {
        return true, Send(chosen);
      }
      DumpSlot(chosen, st, selfs);
      if queueSize == 0 {
        return true, Emptied;
      }
      return false, NoSend;
    }

    /** The dump of the selection loop: the slot leaves the queue. */
    method DumpSlot(slot: nat, ghost st: IndexState, ghost selfs: seq<bool>)
      requires Valid() && slot < queueSizeMax && st == IState() && selfs == SelfFlags()
      modifies this`queueSize, this`queuePriorityLevel, this`internalEventQueueCount, queueIndex
      ensures Valid()
      ensures IState() == Removed(st, slot, selfs[slot])
    {
      Remove(slot);
    }

    /** One step of the selection from the index state `st`: the oldest new event, or the
        next one round robin (which restarts the resend delay). */
    method ChooseStep(now: u32, ghost st: IndexState) returns (chosen: int)
      requires Valid() && st == IState()
      modifies this`queueNewCount, this`queuePriorityLevel, this`queueSendTimestamp
      ensures Valid()
      ensures var c := Choose(st);
              IState() == c.st && chosen == c.slot
              && queueSendTimestamp == if c.stamped then now else old(queueSendTimestamp)
    {
      if queueNewCount == 0 {
        if queuePriorityLevel == queueSize - 1 || IndexAt(queuePriorityLevel + 1) == Empty {
          queuePriorityLevel := 0;
        } else {
          queuePriorityLevel := queuePriorityLevel + 1;
        }
        chosen := IndexAt(queuePriorityLevel);
        queueSendTimestamp := now;
      } else {
        chosen := IndexAt(queueSize - queueNewCount);
        queueNewCount := queueNewCount - 1;
      }
    }

    /** The tests of the selection loop on the chosen slot's target: this device (skip), no
        node (take), a node heard from or an OverrideTimeout event (take), else dump. */
    method Judge(slot: nat, now: u32, ghost verdicts: seq<Verdict>) returns (verdict: Verdict)
      requires Valid() && slot < queueSizeMax && verdicts == Verdicts(now)
      ensures verdict == verdicts[slot]
    {
      var targetNode := NodeOf(slots[slot].ip);
      if targetNode == nodeDevice {
        return Skip;
      }
      if targetNode < 0 {
        return Take;
      }
      if Heard(now, nodeTimestamp[targetNode], nodeTimeoutDuration) || slots[slot].t == OverrideTimeout {
        return Take;
      }
      return Dump;
    }

    /** The send of `queueHandler` and what follows it. */
    method SendSlot(slot: nat, now: u32, sendOk: bool) returns (ok: bool, sent: Option<Outgoing>)
      requires Valid() && slot < queueSizeMax
      modifies this`queueSize, this`queuePriorityLevel, this`internalEventQueueCount, queueIndex
      modifies nodeTimestamp, sendKeepaliveTimestamp, nodeState
      ensures Valid()
      ensures var e := slots[slot];
              sent == Some(Outgoing(e.ip, e.port, e.event, WirePayload(e.id, e.payload)))
      ensures ok == sendOk
      ensures IState() == if RemovedAfterSend(slots[slot].t, sendOk)
                          then Removed(old(IState()), slot, SelfFlags()[slot]) else old(IState())
      ensures if sendOk then Traffic(ToByte(NodeOf(slots[slot].ip)), now) else NodesUnchanged()
    {
      var e := slots[slot];
      sent := Some(Outgoing(e.ip, e.port, e.event, WirePayload(e.id, e.payload)));
      ok := sendOk;
      if sendOk {
        NoteTraffic(e.ip, now);
      }
      ReleaseAfterSend(slot, sendOk);
    }

    /** A sent event other than a Confirm one leaves the queue; after a failed send, Once and
        OverrideTimeout events leave it and the others wait for a resend. */
    method ReleaseAfterSend(slot: nat, sendOk: bool)
      requires Valid() && slot < queueSizeMax
      modifies this`queueSize, this`queuePriorityLevel, this`internalEventQueueCount, queueIndex
      ensures Valid()
      ensures IState() == if RemovedAfterSend(slots[slot].t, sendOk)
                          then Removed(old(IState()), slot, SelfFlags()[slot]) else old(IState())
    {
      if sendOk {
        if slots[slot].t != Confirm {
          Remove(slot);
        }
      } else {
        if slots[slot].t == Once || slots[slot].t == OverrideTimeout {
          Remove(slot);
        }
      }
    }

    /** The device's own timestamp is set, then `byte node = getNode(ip)` and NoteNode; since
        the byte is never negative, the source's `node >= 0` test always passes. */
    method NoteTraffic(ip: Address, now: u32)
      requires Valid()
      modifies nodeTimestamp, sendKeepaliveTimestamp, nodeState
      ensures Traffic(ToByte(NodeOf(ip)), now)
    {
      nodeTimestamp[nodeDevice] := now;
      NoteNode(ToByte(NodeOf(ip)), now);
    }

    // -------------------------------------------------------------------------------------
    // availableEvent (EtherEventQueue.cpp:138-243)

    /** The receive buffers hold what they held in `old`. */
    twostate predicate ReceiverUnchanged()
      reads this
    {
      && receivedEvent == old(receivedEvent) && receivedPayload == old(receivedPayload)
      && receivedEventLength == old(receivedEventLength) && receivedEventIdValue == old(receivedEventIdValue)
    }

    /** The outcome of `availableEvent` from the state in `old`, with `incoming` what the
        EtherEvent receiver offers (None, or a byte count of 0, for nothing): a buffered event
        is reported again; otherwise, while events to this device are counted, the one in the
        highest slot below the queue size is delivered; otherwise an incoming event is
        accepted as Accepted says. */
    twostate predicate Received(n: byte, now: u32, incoming: Option<Frame>)
      reads this, queueIndex, slots, nodeIP, nodeTimestamp, sendKeepaliveTimestamp, nodeState
      requires old(Valid()) && Valid()
    {
      var self := if old(internalEventQueueCount) > 0 then LastSelfSlot(old(SelfFlags()), old(queueSize) - 1) else -1;
      if old(receivedEventLength) != 0 then
        n == old(receivedEventLength) && IState() == old(IState()) && ReceiverUnchanged() && NodesUnchanged()
      else if self >= 0 then
        && IState() == Dispatched(old(IState()), self, true)
        && receivedEvent == slots[self].event && receivedPayload == slots[self].payload
        && receivedEventLength == 0 && receivedEventIdValue == old(receivedEventIdValue)
        && n == ToByte(|receivedEvent|) && NodesUnchanged()
      else if incoming.None? || incoming.value.length == 0 then
        n == 0 && IState() == old(IState()) && ReceiverUnchanged() && NodesUnchanged()
      else
        Accepted(n, now, incoming.value)
    }

    /** An incoming event from the state in `old`: it counts as traffic as Arrived says, and
        then a keepalive is dropped; otherwise the id and payload are split off the raw
        payload, and an ack releases the Confirm events it names as OrderIndex.AckSweep says
        and is dropped, while any other event is buffered. */
    twostate predicate Accepted(n: byte, now: u32, f: Frame)
      reads this, queueIndex, slots, nodeIP, nodeTimestamp, sendKeepaliveTimestamp, nodeState
      requires old(Valid()) && Valid()
    {
      Arrived(now, f) && Interpreted(n, f)
    }

    /** Any incoming event sets the device's own timestamp; when the sender's address is known
        it also counts as traffic with the sender's node (the nodes-only filter that follows
        never rejects, see Policy.SenderAdmittedAsWritten). */
    twostate predicate Arrived(now: u32, f: Frame)
      reads this`sendKeepaliveResendDelay, nodeIP, nodeTimestamp, sendKeepaliveTimestamp, nodeState
      requires nodeDevice < nodeTimestamp.Length
    {
      if senderIPAvailable then Traffic(ToByte(NodeOf(f.sender)), now)
      else && nodeTimestamp[..] == old(nodeTimestamp[..])[nodeDevice := now]
           && sendKeepaliveTimestamp[..] == old(sendKeepaliveTimestamp[..]) && nodeState[..] == old(nodeState[..])
    }

    /** What an incoming event does to the receive buffers and the queue: a keepalive is
        dropped, any other event is handled as EventInterpreted says. */
    twostate predicate Interpreted(n: byte, f: Frame)
      reads this, queueIndex, slots, nodeIP
      requires old(Valid()) && Valid()
    {
      if eventKeepalive.Some? && f.event == eventKeepalive.value then
        && n == 0 && receivedEvent == "" && receivedPayload == "" && receivedEventLength == 0
        && receivedEventIdValue == old(receivedEventIdValue) && IState() == old(IState())
      else EventInterpreted(n, f)
    }

    /** An event other than the keepalive: the id and payload are split off the raw payload;
        an ack releases the Confirm events it names as OrderIndex.AckSweep says and is dropped,
        while any other event is buffered. */
    twostate predicate EventInterpreted(n: byte, f: Frame)
      reads this, queueIndex, slots, nodeIP
      requires old(Valid()) && Valid()
    {
      var payload := ParsedPayload(f.rawPayload);
      && receivedEventIdValue == ParsedId(f.rawPayload)
      && if eventAck.Some? && f.event == eventAck.value then
           && n == 0 && receivedEvent == "" && receivedPayload == "" && receivedEventLength == 0
           && IState() == AckSweep(old(IState()), SlotIds(slots[..]), SlotTypes(slots[..]), SelfFlags(), AckId(payload), 0)
         else
           && n == f.length && receivedEventLength == f.length
           && receivedEvent == f.event && receivedPayload == payload && IState() == old(IState())
    }

    method AvailableEvent(now: u32, incoming: Option<Frame>) returns (n: byte)
      requires Valid()
      modifies this`receivedEvent, this`receivedPayload, this`receivedEventLength, this`receivedEventIdValue
      modifies this`queueSize, this`queueNewCount, this`internalEventQueueCount, this`queuePriorityLevel, queueIndex
      modifies nodeTimestamp, sendKeepaliveTimestamp, nodeState
      ensures Valid()
      ensures Received(n, now, incoming)
    {
      if receivedEventLength != 0 {
        return receivedEventLength;
      }
      if internalEventQueueCount > 0 {
        var slot := FindSelfSlot();
        if slot >= 0 {
          n := DeliverInternal(slot);
          return;
        }
      }
      if incoming.None? || incoming.value.length == 0 {
        return receivedEventLength;
      }
      n := Accept(now, incoming.value);
    }

    /** The internal-event scan: slot numbers from queueSize-1 down to 0, the first whose
        target is this device, or -1. */
    method FindSelfSlot() returns (slot: int)
      requires Valid()
      ensures slot == LastSelfSlot(SelfFlags(), queueSize - 1)
    {
      slot := queueSize - 1;
      while slot >= 0 && slots[slot].ip != nodeIP[nodeDevice]
        invariant -1 <= slot < queueSize
        invariant LastSelfSlot(SelfFlags(), slot) == LastSelfSlot(SelfFlags(), queueSize - 1)
      {
        slot := slot - 1;
      }
    }

    /** An internal event is copied into the receive buffers and removed, and the new-event
        count goes down by one as a byte. */
    method DeliverInternal(slot: nat) returns (n: byte)
      requires Valid() && slot < queueSizeMax && slots[slot].ip == nodeIP[nodeDevice]
      modifies this`receivedEvent, this`receivedPayload
      modifies this`queueSize, this`queueNewCount, this`internalEventQueueCount, this`queuePriorityLevel, queueIndex
      ensures Valid()
      ensures IState() == Dispatched(old(IState()), slot, true)
      ensures receivedEvent == slots[slot].event && receivedPayload == slots[slot].payload
      ensures n == ToByte(|receivedEvent|)
    {
      receivedEvent := slots[slot].event;
      receivedPayload := slots[slot].payload;
      Withdraw(slot);
      n := ToByte(|receivedEvent|);
    }

    /** The delivered event leaves the queue and `queueNewCount--` on the byte counter. */
    method Withdraw(slot: nat)
      requires Valid() && slot < queueSizeMax && slots[slot].ip == nodeIP[nodeDevice]
      modifies this`queueSize, this`queueNewCount, this`internalEventQueueCount, this`queuePriorityLevel, queueIndex
      ensures Valid()
      ensures IState() == Dispatched(old(IState()), slot, true)
    {
      ghost var removed := Removed(IState(), slot, true);
      DispatchedAfterRemove(IState(), slot, true);
      Remove(slot);
      assert IState() == removed;
      UncountNew();
      assert IState() == removed.(newCount := (removed.newCount + TWO8 - 1) % TWO8);
    }

    /** `queueNewCount--` on the byte counter. */
    method UncountNew()
      requires Valid()
      modifies this`queueNewCount
      ensures Valid()
      ensures IState() == old(IState()).(newCount := (old(queueNewCount) + TWO8 - 1) % TWO8)
    {
      CountersOnly(IState(), IState().(newCount := (queueNewCount + TWO8 - 1) % TWO8));
      queueNewCount := (queueNewCount + TWO8 - 1) % TWO8;
    }

    /** An event offered by the EtherEvent receiver. */
    method Accept(now: u32, f: Frame) returns (n: byte)
      requires Valid()
      modifies this`receivedEvent, this`receivedPayload, this`receivedEventLength, this`receivedEventIdValue
      modifies this`queueSize, this`queueNewCount, this`internalEventQueueCount, this`queuePriorityLevel, queueIndex
      modifies nodeTimestamp, sendKeepaliveTimestamp, nodeState
      ensures Valid()
      ensures Accepted(n, now, f)
    {
      NoteArrival(now, f);
      n := Interpret(f);
    }

    method NoteArrival(now: u32, f: Frame)
      requires Valid()
      modifies nodeTimestamp, sendKeepaliveTimestamp, nodeState
      ensures Arrived(now, f)
    {
      if senderIPAvailable {
        NoteTraffic(f.sender, now);
      } else {
        nodeTimestamp[nodeDevice] := now;
      }
    }

    /** The reads of the event and payload, the keepalive and ack checks. */
    method Interpret(f: Frame) returns (n: byte)
      requires Valid()
      modifies this`receivedEvent, this`receivedPayload, this`receivedEventLength, this`receivedEventIdValue
      modifies this`queueSize, this`queueNewCount, this`internalEventQueueCount, this`queuePriorityLevel, queueIndex
      ensures Valid()
      ensures Interpreted(n, f)
    {
      if eventKeepalive.Some? && f.event == eventKeepalive.value {
        FlushReceiver();
        return 0;
      }
      n := InterpretEvent(f);
    }

    method InterpretEvent(f: Frame) returns (n: byte)
      requires Valid()
      modifies this`receivedEvent, this`receivedPayload, this`receivedEventLength, this`receivedEventIdValue
      modifies this`queueSize, this`queueNewCount, this`internalEventQueueCount, this`queuePriorityLevel, queueIndex
      ensures Valid()
      ensures EventInterpreted(n, f)
    {
      receivedEventIdValue := ParsedId(f.rawPayload);
      var payload := ParsedPayload(f.rawPayload);
      if eventAck.Some? && f.event == eventAck.value {
        n := ReleaseAcked(payload);
        return;
      }
      receivedEvent, receivedPayload, receivedEventLength := f.event, payload, f.length;
      return f.length;
    }

    /** The ack branch: the events the payload names are released, the buffers emptied. */
    method ReleaseAcked(payload: string) returns (n: byte)
      requires Valid()
      modifies this`receivedEvent, this`receivedPayload, this`receivedEventLength
      modifies this`queueSize, this`queueNewCount, this`internalEventQueueCount, this`queuePriorityLevel, queueIndex
      ensures Valid()
      ensures n == 0 && receivedEvent == "" && receivedPayload == "" && receivedEventLength == 0
      ensures IState() == AckSweep(old(IState()), SlotIds(slots[..]), SlotTypes(slots[..]), SelfFlags(), AckId(payload), 0)
    {
      AckRelease(AckId(payload));
      FlushReceiver();
      return 0;
    }

    /** The ack handler's loop (EtherEventQueue.cpp:223-237), proved against
        OrderIndex.AckSweep. */
    method AckRelease(ack: byte)
      requires Valid()
      modifies this`queueSize, this`queueNewCount, this`internalEventQueueCount, this`queuePriorityLevel, queueIndex
      ensures Valid()
      ensures IState() == AckSweep(old(IState()), SlotIds(slots[..]), SlotTypes(slots[..]), SelfFlags(), ack, 0)
    {
      ghost var ids := SlotIds(slots[..]);
      ghost var types := SlotTypes(slots[..]);
      ghost var selfs := SelfFlags();
      ghost var goal := AckSweep(IState(), ids, types, selfs, ack, 0);
      var count := 0;
      while count < queueSize
        invariant count <= queueSizeMax && Valid()
        invariant AckSweep(IState(), ids, types, selfs, ack, count) == goal
        decreases queueSizeMax - count
      {
        AckStep(count, ack, IState(), ids, types, selfs);
        count := count + 1;
      }
    }

    /** One iteration of the ack handler's loop from the index state `st`. */
    method AckStep(count: nat, ack: byte, ghost st: IndexState, ghost ids: seq<int>,
                   ghost types: seq<EventType>, ghost selfs: seq<bool>)
      requires Valid() && st == IState() && count < queueSize
      requires ids == SlotIds(slots[..]) && types == SlotTypes(slots[..]) && selfs == SelfFlags()
      modifies this`queueSize, this`queueNewCount, this`internalEventQueueCount, this`queuePriorityLevel, queueIndex
      ensures Valid()
      ensures AckSweep(IState(), ids, types, selfs, ack, count + 1) == AckSweep(st, ids, types, selfs, ack, count)
    {
      if ack == slots[count].id && slots[count].t == Confirm {
        Remove(count);
        if queueNewCount > queueSize {
          queueNewCount := queueSize;
        }
      }
    }
  }
}
