/** The admission and removal rules of the queue, each as a decision on a few values. */
module Policy {
  import opened Types

  /** The event type check of `queue` (EtherEventQueue.cpp:327) as written: a known type is
      accepted when it is Confirm or an ack event is configured. */
  function AcceptsType(code: EventTypeCode, ackSet: bool): (r: bool)
    ensures r <==> code.Known? && (code.t == Confirm || ackSet)
  {
    !(code.OtherCode? || (code.t != Confirm && !ackSet))
  }

  /** Without an ack event the check refuses the types that need no ack (keepalives included)
      and admits the one type that cannot be released without an ack. */
  lemma AckCheckInverted()
    ensures !AcceptsType(Known(Once), false) && !AcceptsType(Known(OverrideTimeout), false)
    ensures AcceptsType(Known(Confirm), false)
  {
  }

  /** The check as intended: a Confirm event needs a configured ack event, every other known
      type is always accepted. */
  function AcceptsTypeIntended(code: EventTypeCode, ackSet: bool): (r: bool)
    ensures r <==> code.Known? && (code.t == Confirm ==> ackSet)
  {
    code.Known? && (code.t != Confirm || ackSet)
  }

  /** The two checks agree whenever an ack event is configured, and disagree on every known
      type when it is not. */
  lemma TypeChecksCompared(code: EventTypeCode, ackSet: bool)
    ensures ackSet ==> AcceptsType(code, ackSet) == AcceptsTypeIntended(code, ackSet)
    ensures !ackSet && code.Known? ==> AcceptsType(code, ackSet) != AcceptsTypeIntended(code, ackSet)
  {
  }

  /** The target check of `queue` (EtherEventQueue.cpp:330-346): a non-node target passes
      unless only nodes may be sent to, this device always passes, and another node passes
      unless it is timed out and the event does not override the timeout. */
  function TargetAdmitted(node: int, self: nat, nodesOnly: bool, expired: bool, t: EventType): (r: bool)
    ensures node < 0 ==> (r <==> !nodesOnly)
    ensures 0 <= node && node == self ==> r
    ensures 0 <= node && node != self ==> (r <==> !expired || t == OverrideTimeout)
  {
    if node < 0 then !nodesOnly
    else if node == self then true
    else !(expired && t != OverrideTimeout)
  }

  /** Whether `queueHandler` removes the event it tried to send (EtherEventQueue.cpp:489-499). */
  function RemovedAfterSend(t: EventType, sent: bool): (r: bool)
    ensures t == Confirm ==> !r
    ensures t == Once || t == OverrideTimeout ==> r
    ensures t == Repeat ==> (r <==> sent)
  {
    if sent then t != Confirm else t == Once || t == OverrideTimeout
  }

  /** The sender check of `availableEvent` (EtherEventQueue.cpp:168-180) as written: the
      node number is stored in a `byte`, so "no node" (-1) becomes 255, the test
      `senderNode >= 0` always holds and the nodes-only filter never rejects. */
  function SenderAdmittedAsWritten(node: int, nodesOnly: bool): (r: bool)
    ensures r
  {
    var senderNode := ToByte(node);
    senderNode >= 0 || !nodesOnly
  }

  /** An event from an address that is no node passes even with the filter on, and the node
      updates for it go to entry 255, past the end of every node table. */
  lemma SenderFilterNeverRejects()
    ensures SenderAdmittedAsWritten(-1, true)
    ensures ToByte(-1) == 255
  {
  }

  /** The sender check as intended: with the filter on, events from non-node addresses are
      rejected; every other event passes. */
  function SenderAdmitted(node: int, nodesOnly: bool): (r: bool)
    ensures !r <==> node < 0 && nodesOnly
  {
    node >= 0 || !nodesOnly
  }
}
