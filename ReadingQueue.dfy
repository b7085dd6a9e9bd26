/** The `samples` deque of decoded readings: `add` appends at the tail and
    `pollFirst` removes the head, so readings leave in the order they came. */
module ReadingQueue {
  import opened Optional

  /** `pollFirst`: the head and the rest, or null and the unchanged empty queue. */
  function PollFirst<T>(q: seq<T>): (r: (Option<T>, seq<T>))
    ensures r.0.None? <==> q == []
    ensures r.0.None? ==> r.1 == q
    ensures r.0.Some? ==> q == [r.0.value] + r.1
  {
    if q == [] then (None, q) else (Some(q[0]), q[1..])
  }

  /** k successive polls: what they return, in call order, and the queue left.
      Its contract gives only the number of results; which readings they are,
      and what is left queued, is stated by DrainInOrder below. */
  function Drain<T>(q: seq<T>, k: nat): (r: (seq<Option<T>>, seq<T>))
    ensures |r.0| == k
  {
    if k == 0 then ([], q)
    else
      var (head, rest) := PollFirst(q);
      var (later, left) := Drain(rest, k - 1);
      ([head] + later, left)
  }

  /** Polling k <= |q| times returns the first k elements of q, oldest first,
      and leaves the others; polling past the end returns null and leaves
      the queue empty. */
  lemma {:induction false} DrainInOrder<T>(q: seq<T>, k: nat)
    ensures k <= |q| ==> Drain(q, k).1 == q[k..]
    ensures k >= |q| ==> Drain(q, k).1 == []
    ensures forall i :: 0 <= i < k ==> Drain(q, k).0[i] == if i < |q| then Some(q[i]) else None
  {
    if k > 0 {
      var rest := PollFirst(q).1;
      DrainInOrder(rest, k - 1);
      if q != [] {
        assert rest == q[1..];
        if k <= |q| {
          assert rest[k - 1..] == q[k..];
        }
      }
    }
  }

  /** What was queued before an append is polled before anything appended. */
  lemma OlderFirst<T>(q: seq<T>, appended: seq<T>)
    ensures Drain(q + appended, |q|).1 == appended
    ensures forall i :: 0 <= i < |q| ==> Drain(q + appended, |q|).0[i] == Some(q[i])
  {
    DrainInOrder(q + appended, |q|);
    assert (q + appended)[|q|..] == appended;
  }
}
