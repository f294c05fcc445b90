/** The bounded queue of samples that a filtered receive skipped, over any type of sample. */
module PullQueue {
  import opened Base
  import opened Config

  datatype QueueState<+T> = QueueState(queue: seq<T>, dropped: u64, rejected: u64)

  /** The index of the first element with the property, or the length when there is none. */
  function FirstIndex<T>(s: seq<T>, p: T -> bool): (i: nat)
    ensures i <= |s| && (i < |s| ==> p(s[i]))
    ensures forall k :: 0 <= k < i ==> !p(s[k])
  {
    if s == [] then 0 else if p(s[0]) then 0 else 1 + FirstIndex(s[1..], p)
  }

  function RemoveAt<T>(s: seq<T>, i: nat): (r: seq<T>)
    requires i < |s|
    ensures |r| == |s| - 1
  {
    s[..i] + s[i + 1..]
  }

  /** The lock-held region that looks for a retained match. */
  function PopMatch<T>(st: QueueState<T>, p: T -> bool): (QueueState<T>, Option<T>) {
    var i := FirstIndex(st.queue, p);
    if i == |st.queue| then (st, None) else (st.(queue := RemoveAt(st.queue, i)), Some(st.queue[i]))
  }

  /** The lock-held region that retains a mismatch, or drops one, or refuses it. */
  function PushMismatch<T>(capacity: usize, policy: FullPolicy, st: QueueState<T>, frame: T): (QueueState<T>, Result<()>) {
    if capacity == 0 then (st.(dropped := SaturatingAdd(st.dropped, 1)), Ok(()))
    else
      var isFull := |st.queue| >= capacity;
      if isFull && policy == RejectNewestAndReport then
        (st.(rejected := SaturatingAdd(st.rejected, 1)), Err(ResourceExhausted))
      else if isFull then
        (st.(queue := st.queue[1..] + [frame], dropped := SaturatingAdd(st.dropped, 1)), Ok(()))
      else
        (st.(queue := st.queue + [frame]), Ok(()))
  }

  /** Whether a full queue makes a receive fail. With capacity zero it never does. */
  predicate Rejects(capacity: usize, policy: FullPolicy) {
    capacity > 0 && policy == RejectNewestAndReport
  }

  function LastN<T>(s: seq<T>, n: nat): (r: seq<T>)
    ensures |r| == if |s| <= n then |s| else n
  {
    if |s| <= n then s else s[|s| - n..]
  }

  function Excess(len: nat, capacity: nat): nat {
    if len <= capacity then 0 else len - capacity
  }

  /** The queue after a whole batch of skipped frames when nothing is refused: the newest
      `capacity` of what was there followed by the batch. */
  function Retained<T>(capacity: usize, st: QueueState<T>, skipped: seq<T>): QueueState<T> {
    st.(queue := LastN(st.queue + skipped, capacity),
        dropped := SaturatingAdd(st.dropped, Excess(|st.queue + skipped|, capacity)))
  }

  /** Retaining frame by frame is retaining the batch. */
  lemma RetainOneMore<T>(capacity: usize, policy: FullPolicy, st: QueueState<T>, skipped: seq<T>, frame: T)
    requires |st.queue| <= capacity
    requires Rejects(capacity, policy) ==> |st.queue| + |skipped| < capacity
    ensures PushMismatch(capacity, policy, Retained(capacity, st, skipped), frame)
            == (Retained(capacity, st, skipped + [frame]), Ok(()))
  {
    var all := st.queue + skipped;
    assert st.queue + (skipped + [frame]) == all + [frame];
    if capacity > 0 {
      if |all| >= capacity {
        assert LastN(all, capacity)[1..] + [frame] == LastN(all + [frame], capacity);
      }
    } else {
      assert LastN(all, 0) == [] && LastN(all + [frame], 0) == [];
    }
  }
}
