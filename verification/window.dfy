/** The rolling window over classifier outputs.

    A FIFO holds the most recent predictions together with a running sum
    that is updated incrementally: the new prediction is added, and once the
    window is full the oldest one is subtracted. An enqueue that finds the
    window already full sends the updated sum to the control process. */
module RollingWindow {
  import opened Optional

  /** Number of predictions the window holds. */
  const Capacity: nat := 5

  datatype InfQueue = InfQueue(preds: seq<real>, sum: real)

  /** The queue as first constructed: no predictions, sum 0. */
  const Empty: InfQueue := InfQueue([], 0.0)

  function Sum(s: seq<real>): real {
    if |s| == 0 then 0.0 else Sum(s[..|s| - 1]) + s[|s| - 1]
  }

  /** Removing the first element subtracts it from the sum. */
  lemma {:induction false} SumCons(x: real, s: seq<real>)
    ensures Sum([x] + s) == x + Sum(s)
    decreases |s|
  {
    if |s| == 0 {
      assert [x] + s == [x];
      assert [x][..0] == [];
    } else {
      var n := |s|;
      assert ([x] + s)[..n] == [x] + s[..n - 1];
      SumCons(x, s[..n - 1]);
    }
  }

  function Min(a: int, b: int): int {
    if a <= b then a else b
  }

  /** The last `n` elements of `s`, or all of `s` when it is shorter. */
  function Last(s: seq<real>, n: nat): (r: seq<real>)
    ensures |r| == Min(|s|, n)
    ensures s == s[..|s| - |r|] + r
  {
    s[|s| - Min(|s|, n)..]
  }

  /** The queue after an enqueue, and the value sent to the control process by it. */
  datatype Enqueued = Enqueued(queue: InfQueue, sent: Option<real>)

  /** Adds one prediction. The window keeps the last five predictions, the
      error of the running sum is neither increased nor decreased, and a value
      is sent exactly when the window was already full: it is the new sum. */
  function Enqueue(q: InfQueue, pred: real): (r: Enqueued)
    ensures r.sent.Some? <==> |q.preds| >= Capacity
    ensures |q.preds| <= Capacity ==> r.queue.preds == Last(q.preds + [pred], Capacity)
    ensures r.queue.sum - Sum(r.queue.preds) == q.sum - Sum(q.preds)
    ensures r.sent.Some? ==> r.sent.value == r.queue.sum
  {
    var preds := q.preds + [pred];
    assert preds[..|q.preds|] == q.preds;
    if |q.preds| <= Capacity - 1 then
      Enqueued(InfQueue(preds, q.sum + pred), None)
    else
      var sum := q.sum - q.preds[0] + pred;
      SumCons(q.preds[0], q.preds[1..]);
      assert [q.preds[0]] + q.preds[1..] == q.preds;
      assert (q.preds[1..] + [pred])[..|q.preds| - 1] == q.preds[1..];
      Enqueued(InfQueue(q.preds[1..] + [pred], sum), Some(sum))
  }

  /** The queue after a run of enqueues from `Empty`, and everything sent, in order. */
  datatype Fed = Fed(queue: InfQueue, sent: seq<real>)

  /** Enqueues `preds` in order into a fresh queue. The queue then holds the
      last five predictions and their exact sum; nothing is sent by the first
      five enqueues and one value by each later one. */
  function Feed(preds: seq<real>): (r: Fed)
    ensures r.queue.preds == Last(preds, Capacity)
    ensures r.queue.sum == Sum(r.queue.preds)
    ensures |r.sent| == if |preds| <= Capacity then 0 else |preds| - Capacity
  {
    if |preds| == 0 then Fed(Empty, [])
    else
      var prev := Feed(preds[..|preds| - 1]);
      var e := Enqueue(prev.queue, preds[|preds| - 1]);
      FeedStep(preds, prev, e);
      Fed(e.queue, prev.sent + ToSeq(e.sent))
  }

  /** One more enqueue keeps the invariant of `Feed`: `prev` is the state
      after all predictions but the last, `e` the enqueue of the last. */
  lemma FeedStep(preds: seq<real>, prev: Fed, e: Enqueued)
    requires |preds| > 0
    requires prev.queue.preds == Last(preds[..|preds| - 1], Capacity)
    requires prev.queue.sum == Sum(prev.queue.preds)
    requires |prev.sent| == if |preds| - 1 <= Capacity then 0 else |preds| - 1 - Capacity
    requires e.sent.Some? <==> |prev.queue.preds| >= Capacity
    requires e.queue.preds == Last(prev.queue.preds + [preds[|preds| - 1]], Capacity)
    requires e.queue.sum - Sum(e.queue.preds) == prev.queue.sum - Sum(prev.queue.preds)
    ensures e.queue.preds == Last(preds, Capacity)
    ensures e.queue.sum == Sum(e.queue.preds)
    ensures |prev.sent + ToSeq(e.sent)| == if |preds| <= Capacity then 0 else |preds| - Capacity
  {
    var n := |preds|;
    var held := |prev.queue.preds|;
    assert held == Min(n - 1, Capacity);
    FeedSentLength(n, prev.sent, e.sent, held);
    assert preds[..n - 1] + [preds[n - 1]] == preds;
    LastSnoc(preds[..n - 1], preds[n - 1], Capacity);
  }

  /** The count of sent values after one more enqueue: `held` is the size of
      the queue before it, `now` what it sends. */
  lemma FeedSentLength(n: nat, before: seq<real>, now: Option<real>, held: nat)
    requires n > 0
    requires |before| == if n - 1 <= Capacity then 0 else n - 1 - Capacity
    requires held == Min(n - 1, Capacity)
    requires now.Some? <==> held >= Capacity
    ensures |before + ToSeq(now)| == if n <= Capacity then 0 else n - Capacity
  {
  }

  /** The value sent by enqueue number k + 6 is the sum of the five
      predictions ending with the one it enqueued. */
  lemma {:induction false} FeedSentAt(preds: seq<real>, k: int)
    requires 0 <= k < |Feed(preds).sent|
    ensures Feed(preds).sent[k] == Sum(preds[k + 1..k + 1 + Capacity])
    decreases |preds|
  {
    var n := |preds|;
    var prev := Feed(preds[..n - 1]);
    var e := Enqueue(prev.queue, preds[n - 1]);
    var sent := Feed(preds).sent;
    assert sent == prev.sent + ToSeq(e.sent);
    if k < |prev.sent| {
      FeedSentAt(preds[..n - 1], k);
      SentEarlier(preds, prev.sent, ToSeq(e.sent), k);
    } else {
      assert e.sent.Some? && sent[k] == e.sent.value;
      SentLatest(preds, k, e.sent.value);
    }
  }

  /** A value sent before the last enqueue keeps its window. */
  lemma SentEarlier(preds: seq<real>, before: seq<real>, now: seq<real>, k: int)
    requires 0 < |preds| && 0 <= k < |before|
    requires k + 1 + Capacity <= |preds| - 1
    requires before[k] == Sum(preds[..|preds| - 1][k + 1..k + 1 + Capacity])
    ensures (before + now)[k] == Sum(preds[k + 1..k + 1 + Capacity])
  {
    assert preds[..|preds| - 1][k + 1..k + 1 + Capacity] == preds[k + 1..k + 1 + Capacity];
  }

  /** The value sent by the last enqueue is the sum of the last five predictions. */
  lemma SentLatest(preds: seq<real>, k: int, v: real)
    requires 0 <= k && k + 1 + Capacity == |preds|
    requires v == Sum(Last(preds, Capacity))
    ensures v == Sum(preds[k + 1..k + 1 + Capacity])
  {
    assert preds[k + 1..k + 1 + Capacity] == Last(preds, Capacity);
  }

  /** Taking the last `n` before appending does not change the last `n` after. */
  lemma LastSnoc(s: seq<real>, x: real, n: nat)
    requires n >= 1
    ensures Last(Last(s, n) + [x], n) == Last(s + [x], n)
  {
    var t := Last(s, n) + [x];
    if |s| < n {
      assert Last(s, n) == s;
      assert Last(t, n) == t;
      assert Last(s + [x], n) == s + [x];
    } else {
      assert Last(s, n) == s[|s| - n..];
      assert Last(t, n) == t[1..];
      assert t[1..] == s[|s| - n + 1..] + [x];
      assert Last(s + [x], n) == (s + [x])[|s| + 1 - n..];
      assert (s + [x])[|s| + 1 - n..] == s[|s| + 1 - n..] + [x];
    }
  }

  /** Predictions in [0, 1] give sums in [0, length]. */
  lemma {:induction false} SumBounds(s: seq<real>)
    requires forall i :: 0 <= i < |s| ==> 0.0 <= s[i] <= 1.0
    ensures 0.0 <= Sum(s) <= |s| as real
    decreases |s|
  {
    if |s| > 0 {
      SumBounds(s[..|s| - 1]);
    }
  }

  /** A window of predictions in [0, 1] sums to a value in [0, 5]. */
  lemma WindowSumInRange(preds: seq<real>, k: int)
    requires forall i :: 0 <= i < |preds| ==> 0.0 <= preds[i] <= 1.0
    requires 0 <= k && k + 1 + Capacity <= |preds|
    ensures 0.0 <= Sum(preds[k + 1..k + 1 + Capacity]) <= Capacity as real
  {
    var w := preds[k + 1..k + 1 + Capacity];
    assert forall i :: 0 <= i < |w| ==> w[i] == preds[k + 1 + i];
    SumBounds(w);
  }

  /** When every prediction lies in [0, 1], every sent value lies in [0, 5],
      so the average the control process computes lies in [0, 1]. */
  lemma FeedSentInRange(preds: seq<real>)
    requires forall i :: 0 <= i < |preds| ==> 0.0 <= preds[i] <= 1.0
    ensures forall k :: 0 <= k < |Feed(preds).sent| ==> 0.0 <= Feed(preds).sent[k] <= Capacity as real
  {
    var sent := Feed(preds).sent;
    forall k | 0 <= k < |sent|
      ensures 0.0 <= sent[k] <= Capacity as real
    {
      FeedSentAt(preds, k);
      WindowSumInRange(preds, k);
    }
  }

  /** Every sent value is the sum of the five predictions ending with the
      one whose enqueue sent it. */
  lemma FeedSentWindows(preds: seq<real>)
    ensures forall k :: 0 <= k < |Feed(preds).sent| ==> Feed(preds).sent[k] == Sum(preds[k + 1..k + 1 + Capacity])
  {
    forall k | 0 <= k < |Feed(preds).sent|
      ensures Feed(preds).sent[k] == Sum(preds[k + 1..k + 1 + Capacity])
    {
      FeedSentAt(preds, k);
    }
  }

  /** The first value is sent by the sixth enqueue, not the fifth: it is the
      sum of predictions two to six. */
  lemma FirstSendOnSixth(preds: seq<real>)
    requires |preds| == 6
    ensures Feed(preds[..5]).sent == []
    ensures Feed(preds).sent == [Sum(preds[1..])]
  {
  }
}
