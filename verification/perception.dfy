/** The perception side: frames cut from the camera stream are classified
    and the predictions pass through the rolling window.

    Decoding a frame and running the network on it are not modelled; they
    are an oracle `classify` that yields a prediction, or nothing when the
    frame does not decode to an image. Only a decoded frame is enqueued. */
module Perception {
  import opened Optional
  import opened Frames
  import opened RollingWindow

  /** Decoding plus inference: a prediction for a frame, or none when decoding fails. */
  type Classifier = seq<byte> -> Option<real>

  /** The predictions obtained from `frames`, in order, skipping frames that do not decode. */
  function Predictions(frames: seq<seq<byte>>, classify: Classifier): seq<real> {
    if |frames| == 0 then []
    else Predictions(frames[..|frames| - 1], classify) + ToSeq(classify(frames[|frames| - 1]))
  }

  /** State of the perception process after some chunks: the receive
      buffer, the inference queue, the predictions enqueued so far and the
      values sent to the control process. */
  datatype Perceived = Perceived(buffer: seq<byte>, queue: InfQueue, predictions: seq<real>, sent: seq<real>)

  /** What happens to the result of one chunk: the buffer is replaced, and
      a frame, if one was cut out and decodes, is classified and its
      prediction enqueued, which may send a value. */
  function Absorb(prev: Perceived, s: StepResult, classify: Classifier): Perceived {
    if s.frame.Some? && classify(s.frame.value).Some? then
      var pred := classify(s.frame.value).value;
      var e := Enqueue(prev.queue, pred);
      Perceived(s.buffer, e.queue, prev.predictions + [pred], prev.sent + ToSeq(e.sent))
    else
      Perceived(s.buffer, prev.queue, prev.predictions, prev.sent)
  }

  /** Runs the receive loop on `chunks` from an empty buffer and a fresh
      queue, handing each extracted frame to the classifier and enqueueing
      its prediction. This interleaved run equals extracting all frames
      first, classifying them, and then feeding the window. */
  function Perceive(chunks: seq<seq<byte>>, classify: Classifier): (r: Perceived)
    ensures r.buffer == Extract([], chunks).buffer
    ensures r.predictions == Predictions(Extract([], chunks).frames, classify)
    ensures r.queue == Feed(r.predictions).queue
    ensures r.sent == Feed(r.predictions).sent
  {
    if |chunks| == 0 then Perceived([], Empty, [], [])
    else
      var prev := Perceive(chunks[..|chunks| - 1], classify);
      var s := Step(prev.buffer, chunks[|chunks| - 1]);
      PerceiveStep(chunks, classify, prev, s);
      AbsorbFeeds(prev, s, classify);
      Absorb(prev, s, classify)
  }

  /** One more chunk keeps the extraction part of the invariant of `Perceive`. */
  lemma PerceiveStep(chunks: seq<seq<byte>>, classify: Classifier, prev: Perceived, s: StepResult)
    requires |chunks| > 0
    requires prev.buffer == Extract([], chunks[..|chunks| - 1]).buffer
    requires prev.predictions == Predictions(Extract([], chunks[..|chunks| - 1]).frames, classify)
    requires s == Step(prev.buffer, chunks[|chunks| - 1])
    ensures Absorb(prev, s, classify).buffer == Extract([], chunks).buffer
    ensures Absorb(prev, s, classify).predictions == Predictions(Extract([], chunks).frames, classify)
  {
    var before := Extract([], chunks[..|chunks| - 1]);
    var after := Extract([], chunks);
    ExtractLast([], chunks);
    AbsorbClassifies(prev, s, classify, before.frames, after.frames);
  }

  /** The predictions after absorbing a step are those of the frames so far. */
  lemma AbsorbClassifies(prev: Perceived, s: StepResult, classify: Classifier,
                         before: seq<seq<byte>>, after: seq<seq<byte>>)
    requires prev.predictions == Predictions(before, classify)
    requires after == before + ToSeq(s.frame)
    ensures Absorb(prev, s, classify).buffer == s.buffer
    ensures Absorb(prev, s, classify).predictions == Predictions(after, classify)
  {
    PredictionsSnoc(before, s.frame, classify);
  }

  /** One more chunk keeps the window part of the invariant of `Perceive`. */
  lemma AbsorbFeeds(prev: Perceived, s: StepResult, classify: Classifier)
    requires prev.queue == Feed(prev.predictions).queue
    requires prev.sent == Feed(prev.predictions).sent
    ensures Absorb(prev, s, classify).queue == Feed(Absorb(prev, s, classify).predictions).queue
    ensures Absorb(prev, s, classify).sent == Feed(Absorb(prev, s, classify).predictions).sent
  {
    if s.frame.Some? && classify(s.frame.value).Some? {
      FeedSnoc(prev.predictions, classify(s.frame.value).value);
    }
  }

  /** Classifying one more optional frame appends its prediction, if any. */
  lemma PredictionsSnoc(frames: seq<seq<byte>>, frame: Option<seq<byte>>, classify: Classifier)
    ensures Predictions(frames + ToSeq(frame), classify) ==
      Predictions(frames, classify) + (if frame.Some? then ToSeq(classify(frame.value)) else [])
  {
    if frame.Some? {
      assert (frames + ToSeq(frame))[..|frames|] == frames;
    } else {
      assert frames + ToSeq(frame) == frames;
    }
  }

  /** Feeding one more prediction is one more enqueue. */
  lemma FeedSnoc(preds: seq<real>, pred: real)
    ensures Feed(preds + [pred]).queue == Enqueue(Feed(preds).queue, pred).queue
    ensures Feed(preds + [pred]).sent == Feed(preds).sent + ToSeq(Enqueue(Feed(preds).queue, pred).sent)
  {
    assert (preds + [pred])[..|preds|] == preds;
  }

  /** Every prediction comes from a distinct chunk's frame, so there are at
      most as many as chunks. */
  lemma {:induction false} PredictionsAtMostFrames(frames: seq<seq<byte>>, classify: Classifier)
    ensures |Predictions(frames, classify)| <= |frames|
    decreases |frames|
  {
    if |frames| > 0 {
      PredictionsAtMostFrames(frames[..|frames| - 1], classify);
    }
  }

  /** With a classifier whose outputs lie in [0, 1], every prediction does. */
  lemma {:induction false} PredictionsInRange(frames: seq<seq<byte>>, classify: Classifier)
    requires forall f :: classify(f).Some? ==> 0.0 <= classify(f).value <= 1.0
    ensures forall i :: 0 <= i < |Predictions(frames, classify)| ==>
      0.0 <= Predictions(frames, classify)[i] <= 1.0
    decreases |frames|
  {
    if |frames| > 0 {
      PredictionsInRange(frames[..|frames| - 1], classify);
    }
  }

  /** What the control process receives: after n predictions, n - 5 values
      (none while n <= 5), the k-th being the sum of predictions k + 1 to
      k + 5 (counting from 0); with a classifier bounded by [0, 1], each lies
      in [0, 5]. */
  lemma PerceiveSends(chunks: seq<seq<byte>>, classify: Classifier)
    requires forall f :: classify(f).Some? ==> 0.0 <= classify(f).value <= 1.0
    ensures var r := Perceive(chunks, classify);
      && |r.predictions| <= |chunks|
      && |r.sent| == (if |r.predictions| <= Capacity then 0 else |r.predictions| - Capacity)
      && (forall k :: 0 <= k < |r.sent| ==> r.sent[k] == Sum(r.predictions[k + 1..k + 1 + Capacity]))
      && (forall k :: 0 <= k < |r.sent| ==> 0.0 <= r.sent[k] <= Capacity as real)
  {
    var r := Perceive(chunks, classify);
    PerceiveAtMostOnePerChunk(chunks, classify);
    PerceiveInRange(chunks, classify);
    FeedSentInRange(r.predictions);
    FeedSentWindows(r.predictions);
  }

  /** No chunk yields more than one prediction. */
  lemma PerceiveAtMostOnePerChunk(chunks: seq<seq<byte>>, classify: Classifier)
    ensures |Perceive(chunks, classify).predictions| <= |chunks|
  {
    PredictionsAtMostFrames(Extract([], chunks).frames, classify);
  }

  /** With a classifier bounded by [0, 1], every prediction enqueued is. */
  lemma PerceiveInRange(chunks: seq<seq<byte>>, classify: Classifier)
    requires forall f :: classify(f).Some? ==> 0.0 <= classify(f).value <= 1.0
    ensures forall i :: 0 <= i < |Perceive(chunks, classify).predictions| ==>
      0.0 <= Perceive(chunks, classify).predictions[i] <= 1.0
  {
    PredictionsInRange(Extract([], chunks).frames, classify);
  }
}
