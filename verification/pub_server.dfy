/**
  The publishing side of `lerobot/common/utils/stream.py` (class PubServer):
  the array framing, the unbounded send queue, and one iteration of the
  sender loop. The socket is left out; a step reports the bytes it would send.
 */
module PubServer {
  import opened Wire
  import opened NdArrays

  /** `_serialize_array`: the shape as one uint32 per dimension, then the
      elements as 4-byte words in row-major order. There is no rank field. */
  function SerializeArray(a: NdArray<Word>): (frame: seq<byte>)
    ensures |frame| == 4 * |a.shape| + 4 * |a.elems|
    ensures a.Valid(WordSize) ==> |frame| == 4 * |a.shape| + 4 * Product(a.shape)
    ensures forall i | 0 <= i < |a.shape| :: U32At(frame, 4 * i) == a.shape[i]
    ensures frame[4 * |a.shape|..] == Flatten(a.elems)
  {
    var hs := Header(a.shape);
    var frame := Flatten(hs) + Flatten(a.elems);
    forall i | 0 <= i < |a.shape|
      ensures U32At(frame, 4 * i) == a.shape[i]
    {
      FlattenAt(hs, i);
      assert frame[4 * i..4 * i + 4] == Flatten(hs)[4 * i..4 * i + 4];
      assert ToWord(WordBytes(hs[i])) == hs[i];
    }
    frame
  }

  /** Word i of a frame reads as dimension i. */
  lemma SerializedWord(a: NdArray<Word>, i: nat)
    requires i < |a.shape|
    ensures U32At(SerializeArray(a), 4 * i) == a.shape[i]
  {
  }

  /** The send queue; the head is the oldest entry. */
  type Queue = seq<NdArray<Word>>

  /** `publish`: put one array at the back of the queue. */
  function Publish(q: Queue, a: NdArray<Word>): (q': Queue)
    ensures |q'| == |q| + 1
    ensures q'[|q|] == a
    ensures forall i | 0 <= i < |q| :: q'[i] == q[i]
  {
    q + [a]
  }

  /** Several `publish` calls in a row, `xs[0]` first. */
  function PublishAll(q: Queue, xs: seq<NdArray<Word>>): Queue
    decreases |xs|
  {
    if |xs| == 0 then q else PublishAll(Publish(q, xs[0]), xs[1..])
  }

  /** Publishing never reorders: the queue is the old entries followed by the
      published arrays in call order. */
  lemma {:induction false} PublishAllAppends(q: Queue, xs: seq<NdArray<Word>>)
    ensures PublishAll(q, xs) == q + xs
    decreases |xs|
  {
    if |xs| > 0 {
      PublishAllAppends(Publish(q, xs[0]), xs[1..]);
      assert q + [xs[0]] + xs[1..] == q + xs;
    }
  }

  datatype Step = Step(queue: Queue, sent: Option<seq<byte>>)

  /** One iteration of `_publisher_loop`: if the queue is not empty, take the
      head and send its serialisation; otherwise do nothing. */
  function PublisherStep(q: Queue): (s: Step)
    ensures s.sent.None? <==> |q| == 0
    ensures |q| == 0 ==> s.queue == q
    ensures |q| > 0 ==> s.queue == q[1..] && s.sent == Some(SerializeArray(q[0]))
  {
    if |q| == 0 then Step(q, None)
    else Step(q[1..], Some(SerializeArray(q[0])))
  }

  datatype Trace = Trace(queue: Queue, sent: seq<seq<byte>>)

  /** `n` iterations of the sender loop with no publish in between. */
  function Run(q: Queue, n: nat): Trace
    decreases n
  {
    if n == 0 then Trace(q, [])
    else
      var s := PublisherStep(q);
      var t := Run(s.queue, n - 1);
      match s.sent
      case None => t
      case Some(frame) => Trace(t.queue, [frame] + t.sent)
  }

  function Min(a: nat, b: nat): nat {
    if a <= b then a else b
  }

  /** The frames of the entries of `q`, oldest first: what the sender owes. */
  function Frames(q: Queue): (fs: seq<seq<byte>>)
    ensures |fs| == |q|
    decreases |q|
  {
    if |q| == 0 then [] else [SerializeArray(q[0])] + Frames(q[1..])
  }

  lemma {:induction false} FramesAt(q: Queue, i: nat)
    requires i < |q|
    ensures Frames(q)[i] == SerializeArray(q[i])
    decreases i
  {
    if i > 0 {
      FramesAt(q[1..], i - 1);
    }
  }

  lemma {:induction false} FramesAppend(a: Queue, b: Queue)
    ensures Frames(a + b) == Frames(a) + Frames(b)
    decreases |a|
  {
    if |a| > 0 {
      assert (a + b)[1..] == a[1..] + b;
      FramesAppend(a[1..], b);
    } else {
      assert a + b == b;
    }
  }

  /** The sender delivers frames in publish order: after `n` steps the first
      min(n, |q|) entries have been sent, oldest first, and the rest wait. */
  lemma {:induction false} RunSendsInQueueOrder(q: Queue, n: nat)
    ensures var k := Min(n, |q|);
            && Run(q, n).queue == q[k..]
            && Run(q, n).sent == Frames(q[..k])
    decreases n
  {
    if |q| == 0 {
      RunIdle(q, n);
    } else if n > 0 {
      var rest := q[1..];
      var k := Min(n, |q|);
      assert Min(n - 1, |rest|) == k - 1;
      RunSendsInQueueOrder(rest, n - 1);
      RunHead(q, n);
      FramesPrefix(q, k);
      assert rest[k - 1..] == q[k..];
    }
  }

  /** Frame by frame: after n steps, sent frame i is the serialisation of
      queue entry i, for every i below min(n, queue length). */
  lemma RunSendsEach(q: Queue, n: nat, i: nat)
    requires i < Min(n, |q|)
    ensures |Run(q, n).sent| == Min(n, |q|)
    ensures Run(q, n).sent[i] == SerializeArray(q[i])
  {
    var k := Min(n, |q|);
    RunSendsInQueueOrder(q, n);
    FramesAt(q[..k], i);
  }

  /** The frames of a non-empty prefix start with the head's frame. */
  lemma FramesPrefix(q: Queue, k: nat)
    requires 1 <= k <= |q|
    ensures Frames(q[..k]) == [SerializeArray(q[0])] + Frames(q[1..][..k - 1])
  {
    assert q[..k][1..] == q[1..][..k - 1];
  }

  /** On an empty queue the loop only polls: nothing is sent. */
  lemma {:induction false} RunIdle(q: Queue, n: nat)
    requires |q| == 0
    ensures Run(q, n) == Trace(q, [])
    decreases n
  {
    if n > 0 {
      RunIdle(q, n - 1);
    }
  }

  /** A step on a non-empty queue sends the head's frame first. */
  lemma RunHead(q: Queue, n: nat)
    requires n > 0 && |q| > 0
    ensures Run(q, n) == Trace(Run(q[1..], n - 1).queue, [SerializeArray(q[0])] + Run(q[1..], n - 1).sent)
  {
  }

  /** A publish that lands while the sender takes the head does not disturb
      it: on a non-empty queue, publishing then stepping equals stepping then
      publishing, and the same frame is sent. */
  lemma PublishCommutesWithStep(q: Queue, a: NdArray<Word>)
    requires |q| > 0
    ensures PublisherStep(Publish(q, a)).sent == PublisherStep(q).sent
    ensures PublisherStep(Publish(q, a)).queue == Publish(PublisherStep(q).queue, a)
  {
    assert (q + [a])[1..] == q[1..] + [a];
  }

  /** Draining a queue to which `xs` was published sends the old entries and
      then every published array, in publish order, and empties the queue. */
  lemma DrainAfterPublishes(q: Queue, xs: seq<NdArray<Word>>)
    ensures var t := Run(PublishAll(q, xs), |q| + |xs|);
            && t.queue == []
            && t.sent == Frames(q) + Frames(xs)
  {
    PublishAllAppends(q, xs);
    RunSendsInQueueOrder(q + xs, |q + xs|);
    WholeSlices(q + xs);
    FramesAppend(q, xs);
  }

  lemma WholeSlices<T>(s: seq<T>)
    ensures s[..|s|] == s && s[|s|..] == []
  {
  }
}
