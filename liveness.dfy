/** Node bookkeeping: the node table lookup and the liveness checks `checkTimeout`,
    `checkTimein`, `checkState` and the keepalive test of `sendKeepalive`, stated over the node
    arrays as sequences. All times are `millis()` values; elapsed time is unsigned 32-bit
    subtraction, so it stays correct across the 49.7-day wrap of the clock. */
module Liveness {
  import opened Types

  /** A node entry is configured when its address is not 0.0.0.0 (`nodeIsSet`). */
  predicate IsSet(a: Address) {
    a != Unset
  }

  /** The node lookup `getNode`: the first node whose configured address equals `ip`, or -1. */
  function FindNode(ips: seq<Address>, ip: Address): (r: int)
    ensures -1 <= r < |ips|
    ensures r >= 0 ==> ips[r] == ip && IsSet(ip) && forall q :: 0 <= q < r ==> ips[q] != ip
    ensures r == -1 ==> !IsSet(ip) || ip !in ips
  {
    if !IsSet(ip) then -1 else FindNodeFrom(ips, ip, 0)
  }

  function FindNodeFrom(ips: seq<Address>, ip: Address, from: nat): (r: int)
    requires from <= |ips|
    requires forall q :: 0 <= q < from ==> ips[q] != ip
    ensures -1 <= r < |ips|
    ensures r >= 0 ==> from <= r && ips[r] == ip && forall q :: 0 <= q < r ==> ips[q] != ip
    ensures r == -1 ==> ip !in ips
    decreases |ips| - from
  {
    if from == |ips| then -1
    else if ips[from] == ip then from
    else FindNodeFrom(ips, ip, from + 1)
  }

  /** A node has been silent for longer than the timeout. */
  predicate Expired(now: u32, stamp: u32, timeout: u32) {
    Sub32(now, stamp) > timeout
  }

  /** A node has been heard from within the timeout. */
  predicate Heard(now: u32, stamp: u32, timeout: u32) {
    Sub32(now, stamp) < timeout
  }

  /** Node n is configured, was Active at the last check and is now expired. */
  predicate NewlyTimedOut(ips: seq<Address>, states: seq<NodeState>, stamps: seq<u32>,
                          now: u32, timeout: u32, n: int)
    requires |ips| == |states| == |stamps|
  {
    0 <= n < |ips| && IsSet(ips[n]) && states[n] == Active && Expired(now, stamps[n], timeout)
  }

  /** Node n is configured, was TimedOut at the last check and has been heard from again. */
  predicate NewlyTimedIn(ips: seq<Address>, states: seq<NodeState>, stamps: seq<u32>,
                         now: u32, timeout: u32, n: int)
    requires |ips| == |states| == |stamps|
  {
    0 <= n < |ips| && IsSet(ips[n]) && states[n] == TimedOut && Heard(now, stamps[n], timeout)
  }

  /** The node `checkTimeout` reports: the lowest newly timed-out node, or -1. */
  function FirstNewlyTimedOut(ips: seq<Address>, states: seq<NodeState>, stamps: seq<u32>,
                              now: u32, timeout: u32, from: nat): (r: int)
    requires |ips| == |states| == |stamps| && from <= |ips|
    ensures r == -1 || from <= r < |ips|
    ensures r >= 0 ==> NewlyTimedOut(ips, states, stamps, now, timeout, r)
    ensures forall n :: from <= n < (if r < 0 then |ips| else r) ==>
              !NewlyTimedOut(ips, states, stamps, now, timeout, n)
    decreases |ips| - from
  {
    if from == |ips| then -1
    else if NewlyTimedOut(ips, states, stamps, now, timeout, from) then from
    else FirstNewlyTimedOut(ips, states, stamps, now, timeout, from + 1)
  }

  /** The node `checkTimein` reports: the lowest newly timed-in node, or -1. */
  function FirstNewlyTimedIn(ips: seq<Address>, states: seq<NodeState>, stamps: seq<u32>,
                             now: u32, timeout: u32, from: nat): (r: int)
    requires |ips| == |states| == |stamps| && from <= |ips|
    ensures r == -1 || from <= r < |ips|
    ensures r >= 0 ==> NewlyTimedIn(ips, states, stamps, now, timeout, r)
    ensures forall n :: from <= n < (if r < 0 then |ips| else r) ==>
              !NewlyTimedIn(ips, states, stamps, now, timeout, n)
    decreases |ips| - from
  {
    if from == |ips| then -1
    else if NewlyTimedIn(ips, states, stamps, now, timeout, from) then from
    else FirstNewlyTimedIn(ips, states, stamps, now, timeout, from + 1)
  }

  /** The checks report transitions, not levels: once `checkTimeout` has reported node r and
      recorded it as TimedOut, a repeated check at the same time does not report r again, and
      `checkTimein` does not report it until it is heard from within the timeout. */
  lemma {:induction false} TimeoutReportedOnce(ips: seq<Address>, states: seq<NodeState>,
                                              stamps: seq<u32>, now: u32, timeout: u32)
    requires |ips| == |states| == |stamps|
    requires FirstNewlyTimedOut(ips, states, stamps, now, timeout, 0) >= 0
    ensures var r := FirstNewlyTimedOut(ips, states, stamps, now, timeout, 0);
            var after := states[r := TimedOut];
            && FirstNewlyTimedOut(ips, after, stamps, now, timeout, 0) != r
            && (FirstNewlyTimedOut(ips, after, stamps, now, timeout, 0) == -1
                || FirstNewlyTimedOut(ips, after, stamps, now, timeout, 0) > r)
            && !NewlyTimedIn(ips, after, stamps, now, timeout, r)
  {
    var r := FirstNewlyTimedOut(ips, states, stamps, now, timeout, 0);
    var after := states[r := TimedOut];
    forall n | 0 <= n < r ensures !NewlyTimedOut(ips, after, stamps, now, timeout, n) {
      assert !NewlyTimedOut(ips, states, stamps, now, timeout, n);
      assert after[n] == states[n];
    }
  }

  /** The same for `checkTimein`: a node it reports and marks Active is not reported again by a
      repeated check, and `checkTimeout` does not report it while it is still heard. */
  lemma {:induction false} TimeinReportedOnce(ips: seq<Address>, states: seq<NodeState>,
                                             stamps: seq<u32>, now: u32, timeout: u32)
    requires |ips| == |states| == |stamps|
    requires FirstNewlyTimedIn(ips, states, stamps, now, timeout, 0) >= 0
    ensures var r := FirstNewlyTimedIn(ips, states, stamps, now, timeout, 0);
            var after := states[r := Active];
            && FirstNewlyTimedIn(ips, after, stamps, now, timeout, 0) != r
            && !NewlyTimedOut(ips, after, stamps, now, timeout, r)
  {
    var r := FirstNewlyTimedIn(ips, states, stamps, now, timeout, 0);
    var after := states[r := Active];

  }

  /** `checkState(node)`: -1 for a node number out of range, 0 (false) for a node silent for
      longer than the timeout, 1 (true) otherwise. It reads no node state. */
  function NodeStatus(stamps: seq<u32>, node: nat, now: u32, timeout: u32): (r: int)
    ensures r == -1 <==> node >= |stamps|
    ensures r == 0 <==> node < |stamps| && Expired(now, stamps[node], timeout)
    ensures r == 1 <==> node < |stamps| && !Expired(now, stamps[node], timeout)
  {
    if node > |stamps| - 1 then -1
    else if Sub32(now, stamps[node]) > timeout then 0
    else 1
  }

  /** A node `checkTimeout` reports is one `checkState` calls timed out. */
  lemma ReportedNodeIsTimedOut(ips: seq<Address>, states: seq<NodeState>, stamps: seq<u32>,
                               now: u32, timeout: u32)
    requires |ips| == |states| == |stamps|
    requires FirstNewlyTimedOut(ips, states, stamps, now, timeout, 0) >= 0
    ensures NodeStatus(stamps, FirstNewlyTimedOut(ips, states, stamps, now, timeout, 0), now, timeout) == 0
  {
  }

  /** The keepalive test of `sendKeepalive`: the node has been silent for longer than the
      timeout less the margin (an unsigned subtraction) and the last keepalive to it is older
      than the keepalive resend delay. */
  predicate KeepaliveDue(now: u32, stamp: u32, keepaliveStamp: u32, timeout: u32, margin: u32,
                         resendDelay: u32) {
    Sub32(now, stamp) > Sub32(timeout, margin) && Sub32(now, keepaliveStamp) > resendDelay
  }

  /** While the margin does not exceed the timeout, a keepalive becomes due no later than the
      node times out (once the resend delay has passed). */
  lemma KeepaliveBeforeTimeout(now: u32, stamp: u32, keepaliveStamp: u32, timeout: u32,
                               margin: u32, resendDelay: u32)
    requires margin <= timeout
    requires Expired(now, stamp, timeout) && Sub32(now, keepaliveStamp) > resendDelay
    ensures KeepaliveDue(now, stamp, keepaliveStamp, timeout, margin, resendDelay)
  {
  }

  /** A margin larger than the timeout (possible when the timeout is lowered after the margin
      was set) wraps the threshold to nearly 2^32 ms, and no keepalive becomes due at all. */
  lemma LargeMarginSuppressesKeepalive(now: u32, stamp: u32, keepaliveStamp: u32, timeout: u32,
                                       margin: u32, resendDelay: u32)
    requires timeout < margin && Sub32(now, stamp) <= TWO32 - 1 - (margin - timeout)
    ensures !KeepaliveDue(now, stamp, keepaliveStamp, timeout, margin, resendDelay)
  {
  }

  /** Hearing from a node sets its keepalive stamp to `now - sendKeepaliveResendDelay`, so the
      resend-delay half of the test holds again one millisecond later, and the first half then
      alone decides. */
  lemma TrafficRearmsKeepalive(now: u32, resendDelay: u32)
    ensures Sub32(now, Sub32(now, resendDelay)) == resendDelay
    ensures !(Sub32(now, Sub32(now, resendDelay)) > resendDelay)
  {
  }

  /** `checkTimeout` and `checkTimein` return an `int8_t`: node numbers from 128 on come out
      negative, and node 255 comes out as -1, the value that means no node. */
  function ReportedNode(n: int): (r: i8)
    ensures -1 <= n < 0x80 ==> r == n
  {
    Wrap8(n)
  }

  lemma HighNodeLooksAbsent()
    ensures ReportedNode(255) == -1 && ReportedNode(200) == -56
  {
  }

  /** As written, whenever the lowest newly timed-out node is numbered 128 or more, `checkTimeout`
      reports a negative number, which callers read as "no node". */
  lemma HighNodeReportedNegative(ips: seq<Address>, states: seq<NodeState>, stamps: seq<u32>,
                                 now: u32, timeout: u32)
    requires |ips| == |states| == |stamps| < TWO8
    requires FirstNewlyTimedOut(ips, states, stamps, now, timeout, 0) >= 0x80
    ensures ReportedNode(FirstNewlyTimedOut(ips, states, stamps, now, timeout, 0)) < 0
  {
    var f := FirstNewlyTimedOut(ips, states, stamps, now, timeout, 0);
    assert (f + 0x80) % 0x100 == f - 0x80;
  }

  /** `checkTimeout` as intended, with a result wide enough for every node number (`int16_t`):
      a node is reported exactly when one has newly timed out, and it is the lowest such node. */
  function CheckTimeoutWide(ips: seq<Address>, states: seq<NodeState>, stamps: seq<u32>,
                            now: u32, timeout: u32): (r: i16)
    requires |ips| == |states| == |stamps| < TWO8
    ensures -1 <= r < |ips|
    ensures r >= 0 ==> NewlyTimedOut(ips, states, stamps, now, timeout, r)
                       && forall n :: 0 <= n < r ==> !NewlyTimedOut(ips, states, stamps, now, timeout, n)
    ensures r == -1 <==> forall n :: 0 <= n < |ips| ==> !NewlyTimedOut(ips, states, stamps, now, timeout, n)
  {
    FirstNewlyTimedOut(ips, states, stamps, now, timeout, 0)
  }

  /** `checkTimein` as intended, with the same wide result. */
  function CheckTimeinWide(ips: seq<Address>, states: seq<NodeState>, stamps: seq<u32>,
                           now: u32, timeout: u32): (r: i16)
    requires |ips| == |states| == |stamps| < TWO8
    ensures -1 <= r < |ips|
    ensures r >= 0 ==> NewlyTimedIn(ips, states, stamps, now, timeout, r)
                       && forall n :: 0 <= n < r ==> !NewlyTimedIn(ips, states, stamps, now, timeout, n)
    ensures r == -1 <==> forall n :: 0 <= n < |ips| ==> !NewlyTimedIn(ips, states, stamps, now, timeout, n)
  {
    FirstNewlyTimedIn(ips, states, stamps, now, timeout, 0)
  }
}
