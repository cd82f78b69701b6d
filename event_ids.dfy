/** The event ids `eventIDfind` hands out (EtherEventQueue.cpp:873-895): two-digit numbers, which
    take exactly two characters at the head of the wire payload, or 0 when the search finds
    every one of them in use. */
module EventIds {
  import opened Types
  import opened Counting

  const FirstId: byte := 10
  const LastId: byte := 99

  /** The smallest id in 10..99 that `used` does not contain, or 0 when all ninety are used. */
  function FirstFreeId(used: seq<int>): (r: byte)
    ensures r != 0 ==> FirstId <= r <= LastId && r !in used
    ensures forall id :: FirstId <= id < (if r == 0 then LastId + 1 else r) ==> id in used
  {
    FreeIdFrom(used, FirstId)
  }

  function FreeIdFrom(used: seq<int>, id: nat): (r: byte)
    requires FirstId <= id <= LastId + 1
    requires forall x :: FirstId <= x < id ==> x in used
    ensures r != 0 ==> id <= r <= LastId && r !in used
    ensures forall x :: FirstId <= x < (if r == 0 then LastId + 1 else r) ==> x in used
    decreases LastId + 1 - id
  {
    if id > LastId then 0
    else if id !in used then id
    else FreeIdFrom(used, id + 1)
  }

  /** Fewer than ninety ids in use always leave a free one. */
  lemma FreeIdExists(used: seq<int>)
    requires |used| < LastId - FirstId + 1
    ensures FirstFreeId(used) != 0
  {
    if FirstFreeId(used) == 0 {
      Pigeonhole(used, FirstId, LastId + 1);
    }
  }

  /** The ids of the listed slots, in order. */
  function IdsOf(ids: seq<byte>, slots: seq<int>): (r: seq<int>)
    requires forall i :: 0 <= i < |slots| ==> 0 <= slots[i] < |ids|
    ensures |r| == |slots|
    ensures forall i :: 0 <= i < |slots| ==> r[i] == ids[slots[i]]
  {
    seq(|slots|, i requires 0 <= i < |slots| => ids[slots[i]] as int)
  }

  /** As written, `eventIDfind` compares against the ids of slots 0 .. queueSize-1 rather than
      of the queued slots. With slot 2 queued under id 10 and the new event placed in slot 0
      (the queue then holding slots 2 and 0, and slots 0 and 1 keeping the stale ids 11 and
      12), the search returns 10 again. */
  lemma DuplicateIdHandedOut()
    ensures var ids: seq<byte> := [11, 12, 10];
            var order := [2, 0];
            FirstFreeId(ids[..|order|]) == 10 && ids[order[0]] == 10
  {
    var ids: seq<byte> := [11, 12, 10];
    assert 10 !in ids[..2];
  }

  /** The id search as intended: compare against the ids of the other queued events. With fewer
      than ninety of them the result is a two-digit id none of them carries. */
  function FreshId(ids: seq<byte>, others: seq<int>): (r: byte)
    requires forall i :: 0 <= i < |others| ==> 0 <= others[i] < |ids|
    ensures r != 0 ==> forall i :: 0 <= i < |others| ==> ids[others[i]] != r
    ensures |others| < LastId - FirstId + 1 ==> FirstId <= r <= LastId
  {
    var used := IdsOf(ids, others);
    if |others| < LastId - FirstId + 1 then FreeIdExists(used); FirstFreeId(used)
    else FirstFreeId(used)
  }

  /** As written, an overflow at the largest capacity `begin` allows (ninety slots) searches the
      ids of all ninety slots, the one just reused for the new event included. When they hold
      the ids 10..99 (as after ninety events queued from empty, when no slot starts out holding
      one of those ids), every id counts as in use and
      the new event gets id 0. */
  lemma OverflowAtNinetyGivesZero()
    ensures FirstFreeId(seq(90, i => FirstId as int + i)) == 0
  {
    var used := seq(90, i => FirstId as int + i);
    forall id | FirstId <= id <= LastId
      ensures id in used
    {
      assert used[id - FirstId] == id;
    }
  }

  /** The intended search at every capacity up to ninety: the new event in `slot` is compared
      only with the other queued events, which hold distinct slots other than its own. At most
      89 ids are then in use, so the result is a two-digit id none of them carries. */
  lemma FreshIdAtCapacity(ids: seq<byte>, others: seq<int>, slot: int)
    requires |ids| <= LastId - FirstId + 1
    requires 0 <= slot < |ids|
    requires forall i :: 0 <= i < |others| ==> 0 <= others[i] < |ids| && others[i] != slot
    requires forall i, j :: 0 <= i < j < |others| ==> others[i] != others[j]
    ensures FirstId <= FreshId(ids, others) <= LastId
    ensures forall i :: 0 <= i < |others| ==> ids[others[i]] != FreshId(ids, others)
  {
    DistinctAvoidingGap(others, |ids|, slot);
  }
}
