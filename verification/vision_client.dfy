/**
  `lerobot/common/utils/client.py` (class VisionClient): two-part
  `(topic, data)` messages whose data is a 12-byte header of three uint32
  dims followed by uint8 pixels, drained into a cache that keeps only the
  newest image per topic. The poller is left out: the messages ready at the
  moment `receive` is called are given as a finite sequence.
 */
module VisionClient {
  import opened Wire
  import opened NdArrays
  import opened PubServer

  /** The item size of uint8, the pixel type. */
  const PixelSize: nat := 1

  type Image = NdArray<byte>
  type Topic = seq<byte>
  /** One multipart transport message, as the list of its parts. */
  type Message = seq<seq<byte>>
  /** `latest_images`. */
  type Cache = map<Topic, Image>

  /** The body of the `receive` loop: `data[:12]` as uint32 dims, indexed 0, 1 and 2, then
      `data[12:]` as uint8 reshaped to those dims. */
  function DecodeImage(data: seq<byte>): (r: Result<Image>)
    ensures r.Ok? <==> && |data| >= 12
                       && |data| - 12 == U32At(data, 0) * (U32At(data, 4) * U32At(data, 8))
                       && NonzeroProduct([U32At(data, 0), U32At(data, 4), U32At(data, 8)]) <= MaxIntp
    ensures r.Ok? ==> && r.value.shape == [U32At(data, 0), U32At(data, 4), U32At(data, 8)]
                      && r.value.elems == data[12..]
                      && r.value.Valid(PixelSize)
    ensures |data| < 12 ==> r == Err(if |data| % 4 == 0 then MissingDim else BufferSize)
    ensures |data| >= 12 && r.Err? ==> r.error == ShapeMismatch
  {
    if |data| >= 12 then
      LongImage(data);
      ReadImage(data)
    else
      assert data[..|data|] == data;
      ReadImage(data)
  }

  /** The decoding steps as written, before any fact about them is used. */
  function ReadImage(data: seq<byte>): Result<Image> {
    var h := if |data| < 12 then |data| else 12;
    var header :- FromBufferU32(data[..h]);
    if |header| < 3 then Err(MissingDim)
    else Reshape(data[12..], [header[0], header[1], header[2]], PixelSize)
  }

  /** At least 12 bytes: the three dims, the size check, then the pixels. */
  lemma LongImage(data: seq<byte>)
    requires |data| >= 12
    ensures var r := ReadImage(data);
            && (r.Ok? <==> && |data| - 12 == U32At(data, 0) * (U32At(data, 4) * U32At(data, 8))
                           && NonzeroProduct([U32At(data, 0), U32At(data, 4), U32At(data, 8)]) <= MaxIntp)
            && (r.Ok? ==> && r.value.shape == [U32At(data, 0), U32At(data, 4), U32At(data, 8)]
                          && r.value.elems == data[12..]
                          && r.value.Valid(PixelSize))
            && (r.Err? ==> r.error == ShapeMismatch)
  {
    var d0, d1, d2 := U32At(data, 0), U32At(data, 4), U32At(data, 8);
    ImageHeader(data);
    ThreeDims(data, d0, d1, d2);
  }

  /** `data[:12]` of a frame of at least 12 bytes is the three dims. */
  lemma ImageHeader(data: seq<byte>)
    requires |data| >= 12
    ensures FromBufferU32(data[..12]) == Ok([U32At(data, 0), U32At(data, 4), U32At(data, 8)])
  {
    var hr := FromBufferU32(data[..12]);
    assert hr.Ok? && |hr.value| == 3;
    assert data[..12][0..4] == data[0..4];
    assert data[..12][4..8] == data[4..8];
    assert data[..12][8..12] == data[8..12];
    assert hr.value[0] == U32At(data[..12], 0);
    assert hr.value[1] == U32At(data[..12], 4);
    assert hr.value[2] == U32At(data[..12], 8);
    assert hr.value == [U32At(data, 0), U32At(data, 4), U32At(data, 8)];
  }

  lemma ThreeDims(data: seq<byte>, d0: uint32, d1: uint32, d2: uint32)
    requires |data| >= 12
    requires FromBufferU32(data[..12]) == Ok([d0, d1, d2])
    ensures var r := ReadImage(data);
            && (r.Ok? <==> |data| - 12 == d0 * (d1 * d2) && BytesFit(PixelSize, [d0, d1, d2]))
            && (r.Ok? ==> r.value == NdArray([d0, d1, d2], data[12..]) && r.value.Valid(PixelSize))
            && (r.Err? ==> r.error == ShapeMismatch)
  {
    ProductRank3(d0, d1, d2);
  }

  /** Any two dims that multiply past MaxIntp are refused, whatever the
      third dim is, even a zero that leaves no pixels to hold: numpy will not
      create an array whose nonzero dims multiply that far. */
  lemma OverflowingDimsRejected(data: seq<byte>)
    requires |data| >= 12
    requires var d0, d1, d2 := U32At(data, 0) as int, U32At(data, 4) as int, U32At(data, 8) as int;
             d0 * d1 > MaxIntp || d0 * d2 > MaxIntp || d1 * d2 > MaxIntp
    ensures DecodeImage(data) == Err(ShapeMismatch)
  {
    PairsBelowNonzero(U32At(data, 0), U32At(data, 4), U32At(data, 8));
  }

  /** Each product of two of the dims is at most the product of the nonzero dims. */
  lemma PairsBelowNonzero(d0: uint32, d1: uint32, d2: uint32)
    ensures var n := NonzeroProduct([d0, d1, d2]);
            (d0 as int) * (d1 as int) <= n && (d0 as int) * (d2 as int) <= n && (d1 as int) * (d2 as int) <= n
  {
    NonzeroRank3(d0, d1, d2);
    PairBelow(d0, d1, d2);
    PairBelow(d0, d2, d1);
    PairBelow(d1, d2, d0);
    ReorderNonzero(d0, d1, d2);
  }

  /** x·y is at most the product of x, y and z, each zero counted as 1. */
  lemma PairBelow(x: nat, y: nat, z: nat)
    ensures x * y <= (if x == 0 then 1 else x) * ((if y == 0 then 1 else y) * (if z == 0 then 1 else z))
  {
    var mx, my, mz := (if x == 0 then 1 else x), (if y == 0 then 1 else y), (if z == 0 then 1 else z);
    MulMono(x, y, mx, my);
    MulMono(mx * my, 1, mx * my, mz);
    assert mx * (my * mz) == (mx * my) * mz;
  }

  /** The product of three factors in the orders PairBelow is called with. */
  lemma ReorderNonzero(a: nat, b: nat, c: nat)
    ensures a * (b * c) == a * (c * b) == b * (c * a)
  {
  }

  lemma MulMono(x: nat, y: nat, hx: nat, hy: nat)
    requires x <= hx && y <= hy
    ensures x * y <= hx * hy
  {
    assert x * y <= hx * y;
  }

  /** The 12-byte header (0xFFFFFFFF, 0xFFFFFFFF, 0) with no pixels: an empty
      buffer reshaped to a shape with no elements, which numpy still refuses. */
  lemma MaxDimsEmptyImageRejected()
    ensures DecodeImage([255, 255, 255, 255, 255, 255, 255, 255, 0, 0, 0, 0]) == Err(ShapeMismatch)
  {
    var data: seq<byte> := [255, 255, 255, 255, 255, 255, 255, 255, 0, 0, 0, 0];
    assert ToWord(data[0..4]) == Word(255, 255, 255, 255);
    assert ToWord(data[4..8]) == Word(255, 255, 255, 255);
    OverflowingDimsRejected(data);
  }

  /** The header (0, 0xFFFFFFFF, 0xFFFFFFFF) with no pixels: the zero dim
      comes first, so the left-to-right product never overflows, but the
      array would still be too big to create. */
  lemma ZeroFirstDimImageRejected()
    ensures DecodeImage([0, 0, 0, 0, 255, 255, 255, 255, 255, 255, 255, 255]) == Err(ShapeMismatch)
  {
    var data: seq<byte> := [0, 0, 0, 0, 255, 255, 255, 255, 255, 255, 255, 255];
    assert ToWord(data[4..8]) == Word(255, 255, 255, 255);
    assert ToWord(data[8..12]) == Word(255, 255, 255, 255);
    OverflowingDimsRejected(data);
  }

  /** The frame layout this decoder expects: the three dims, then the pixels. */
  function ImageFrame(a: Image): seq<byte> {
    Flatten(Header(a.shape)) + a.elems
  }

  /** A rank-3 image framed as the decoder expects comes back unchanged. */
  lemma DecodeImageFrame(a: Image)
    requires a.Valid(PixelSize) && |a.shape| == 3
    ensures DecodeImage(ImageFrame(a)) == Ok(a)
  {
    var frame := ImageFrame(a);
    HeaderRoundTrip(a.shape);
    assert frame[..12] == Flatten(Header(a.shape));
    var s0, s1, s2 := a.shape[0], a.shape[1], a.shape[2];
    assert a.shape == [s0, s1, s2];
    ProductRank3(s0, s1, s2);
    ThreeDims(frame, s0, s1, s2);
    assert frame[12..] == a.elems;
    assert ReadImage(frame) == Ok(a);
    ImageHeader(frame);
  }

  /** Decoding is exact: whatever decodes to `a` is the frame of `a`. */
  lemma DecodeImageExact(data: seq<byte>, a: Image)
    requires DecodeImage(data) == Ok(a)
    ensures a.Valid(PixelSize) && |a.shape| == 3
    ensures data == ImageFrame(a)
  {
    ImageHeader(data);
    HeaderOfBytes(data[..12]);
    assert data == data[..12] + data[12..];
  }

  /** Both directions together: a buffer decodes to `a` exactly when `a` is a
      valid rank-3 image and the buffer is its frame. */
  lemma DecodeImageIffFrame(data: seq<byte>, a: Image)
    ensures DecodeImage(data) == Ok(a) <==> a.Valid(PixelSize) && |a.shape| == 3 && data == ImageFrame(a)
  {
    if DecodeImage(data) == Ok(a) {
      DecodeImageExact(data, a);
    }
    if a.Valid(PixelSize) && |a.shape| == 3 && data == ImageFrame(a) {
      DecodeImageFrame(a);
    }
  }

  /** A rank-3 frame written by `_serialize_array` that holds at least one
      element is refused by this decoder: its payload has 4 bytes per
      element where this decoder wants 1. */
  lemma StreamFrameRejected(a: NdArray<Word>)
    requires a.Valid(WordSize) && |a.shape| == 3 && Product(a.shape) >= 1
    ensures DecodeImage(SerializeArray(a)) == Err(ShapeMismatch)
  {
    var frame := SerializeArray(a);
    assert frame[..12] == Flatten(Header(a.shape));
    HeaderRoundTrip(a.shape);
    var s0, s1, s2 := a.shape[0], a.shape[1], a.shape[2];
    assert a.shape == [s0, s1, s2];
    ProductRank3(s0, s1, s2);
    ThreeDims(frame, s0, s1, s2);
    assert ReadImage(frame).Err?;
    ImageHeader(frame);
  }

  /** `topic, data = recv_multipart()` unpacking, then the decode of `data`. */
  function DecodeMessage(parts: Message): (r: Result<(Topic, Image)>)
    ensures r.Ok? <==> |parts| == 2 && DecodeImage(parts[1]).Ok?
    ensures r.Ok? ==> r.value.0 == parts[0] && r.value.1 == DecodeImage(parts[1]).value
    ensures |parts| != 2 ==> r == Err(PartCount)
  {
    if |parts| != 2 then Err(PartCount)
    else
      var img :- DecodeImage(parts[1]);
      Ok((parts[0], img))
  }

  /** The topics of the two-part messages in a batch. */
  function TopicsOf(ready: seq<Message>): set<Topic> {
    set i | 0 <= i < |ready| && |ready[i]| == 2 :: ready[i][0]
  }

  lemma TopicsOfCons(ready: seq<Message>)
    requires |ready| > 0
    ensures TopicsOf(ready) == (if |ready[0]| == 2 then {ready[0][0]} else {}) + TopicsOf(ready[1..])
  {
    var rest := ready[1..];
    forall t | t in TopicsOf(ready)
      ensures t in (if |ready[0]| == 2 then {ready[0][0]} else {}) + TopicsOf(rest)
    {
      var i :| 0 <= i < |ready| && |ready[i]| == 2 && ready[i][0] == t;
      if i > 0 {
        assert rest[i - 1] == ready[i];
      }
    }
    forall t | t in TopicsOf(rest)
      ensures t in TopicsOf(ready)
    {
      var i :| 0 <= i < |rest| && |rest[i]| == 2 && rest[i][0] == t;
      assert ready[i + 1] == rest[i];
    }
  }

  /** What one call of `receive` leaves behind: the cache, the error that
      ended it if any, and the messages still waiting in the socket. */
  datatype Drained = Drained(cache: Cache, failure: Option<DecodeError>, unread: seq<Message>)

  /** How the drain turns one message into a topic and an image.
      `DecodeMessage` is the one `receive` uses. */
  type Decoder = Message -> Result<(Topic, Image)>

  /** The decoder accepts only two-part messages and keys each image by
      the message's first part, as the unpacking `topic, data = ...` does. */
  ghost predicate KeepsTopic(decode: Decoder) {
    forall m :: decode(m).Ok? ==> |m| == 2 && decode(m).value.0 == m[0]
  }

  lemma DecodeMessageKeepsTopic()
    ensures KeepsTopic(DecodeMessage)
  {
  }

  /** The `receive` loop, given how it decodes one message: take every ready
      message in order and store its image under its topic, overwriting the
      previous one. A message that does not decode raises, so the loop ends
      there, the stores already made stay, and the messages behind it are
      left unread. */
  function Fold(decode: Decoder, cache: Cache, ready: seq<Message>): Drained
    decreases |ready|
  {
    if |ready| == 0 then Drained(cache, None, [])
    else
      match decode(ready[0])
      case Err(e) => Drained(cache, Some(e), ready[1..])
      case Ok(m) => Fold(decode, cache[m.0 := m.1], ready[1..])
  }

  /** The drain never loses a key, adds only topics of the batch, and leaves
      the entries of other topics alone. */
  lemma {:induction false} FoldKeys(decode: Decoder, cache: Cache, ready: seq<Message>)
    requires KeepsTopic(decode)
    ensures var d := Fold(decode, cache, ready);
            && cache.Keys <= d.cache.Keys
            && d.cache.Keys <= cache.Keys + TopicsOf(ready)
            && forall t | t in cache && t !in TopicsOf(ready) :: d.cache[t] == cache[t]
    decreases |ready|
  {
    if |ready| > 0 && decode(ready[0]).Ok? {
      var m := decode(ready[0]).value;
      FoldKeys(decode, cache[m.0 := m.1], ready[1..]);
      TopicsOfCons(ready);
    }
  }

  /** A clean drain reads everything; a failed one leaves a strict suffix
      of the batch unread. */
  lemma {:induction false} FoldUnread(decode: Decoder, cache: Cache, ready: seq<Message>)
    ensures var d := Fold(decode, cache, ready);
            && (d.failure.None? ==> d.unread == [])
            && (d.failure.Some? ==> |d.unread| < |ready| && d.unread == ready[|ready| - |d.unread|..])
    decreases |ready|
  {
    if |ready| > 0 && decode(ready[0]).Ok? {
      var m := decode(ready[0]).value;
      var rest := ready[1..];
      FoldUnread(decode, cache[m.0 := m.1], rest);
      var d := Fold(decode, cache[m.0 := m.1], rest);
      if d.failure.Some? {
        assert rest[|rest| - |d.unread|..] == ready[|ready| - |d.unread|..];
      }
    }
  }

  /** `receive` (the `while` loop over the poller in `client.py`) with its
      own decoder. */
  function Receive(cache: Cache, ready: seq<Message>): (d: Drained)
    ensures cache.Keys <= d.cache.Keys
    ensures d.cache.Keys <= cache.Keys + TopicsOf(ready)
    ensures forall t | t in cache && t !in TopicsOf(ready) :: d.cache[t] == cache[t]
    ensures d.failure.None? ==> d.unread == []
    ensures d.failure.Some? ==> |d.unread| < |ready| && d.unread == ready[|ready| - |d.unread|..]
  {
    DecodeMessageKeepsTopic();
    FoldKeys(DecodeMessage, cache, ready);
    FoldUnread(DecodeMessage, cache, ready);
    Fold(DecodeMessage, cache, ready)
  }

  /** Every message of the batch decodes. */
  predicate AllOk(decode: Decoder, ready: seq<Message>) {
    forall i | 0 <= i < |ready| :: decode(ready[i]).Ok?
  }

  /** Every message of the batch decodes with the client's decoder. */
  predicate AllDecode(ready: seq<Message>) {
    AllOk(DecodeMessage, ready)
  }

  /** Message i carries topic t and no later message of the batch does. */
  predicate LastFor(ready: seq<Message>, i: int, t: Topic) {
    && 0 <= i < |ready|
    && |ready[i]| == 2
    && ready[i][0] == t
    && forall j | i < j < |ready| :: |ready[j]| == 2 ==> ready[j][0] != t
  }

  /** A drain in which every message decodes stores, for every topic of the
      batch, the image of its last message. */
  lemma {:induction false} FoldKeepsLatest(decode: Decoder, cache: Cache, ready: seq<Message>)
    requires KeepsTopic(decode) && AllOk(decode, ready)
    ensures Fold(decode, cache, ready).failure == None
    ensures Fold(decode, cache, ready).unread == []
    ensures Fold(decode, cache, ready).cache.Keys == cache.Keys + TopicsOf(ready)
    ensures forall i, t | LastFor(ready, i, t) :: Fold(decode, cache, ready).cache[t] == decode(ready[i]).value.1
    decreases |ready|
  {
    if |ready| > 0 {
      TopicsOfCons(ready);
      var m := decode(ready[0]).value;
      var c' := cache[m.0 := m.1];
      var rest := ready[1..];
      AllOkTail(decode, ready);
      FoldKeepsLatest(decode, c', rest);
      FoldKeys(decode, c', rest);
      var d := Fold(decode, c', rest);
      assert Fold(decode, cache, ready) == d;
      forall i, t | LastFor(ready, i, t)
        ensures d.cache[t] == decode(ready[i]).value.1
      {
        if i == 0 {
          LastForHead(ready, t);
        } else {
          LastForTail(ready, i, t);
        }
      }
    }
  }

  /** After draining a batch that decodes throughout, every topic of the
      batch holds the image of its last message, every other entry is as it
      was, the keys are the old keys plus the batch's topics, and nothing is
      left unread. */
  lemma DrainKeepsLatest(cache: Cache, ready: seq<Message>)
    requires AllDecode(ready)
    ensures Receive(cache, ready).failure == None
    ensures Receive(cache, ready).unread == []
    ensures Receive(cache, ready).cache.Keys == cache.Keys + TopicsOf(ready)
    ensures forall i, t | LastFor(ready, i, t) ::
              Receive(cache, ready).cache[t] == DecodeImage(ready[i][1]).value
  {
    DecodeMessageKeepsTopic();
    FoldKeepsLatest(DecodeMessage, cache, ready);
  }

  lemma AllOkTail(decode: Decoder, ready: seq<Message>)
    requires |ready| > 0 && AllOk(decode, ready)
    ensures AllOk(decode, ready[1..])
  {
    var rest := ready[1..];
    forall j | 0 <= j < |rest|
      ensures decode(rest[j]).Ok?
    {
      assert rest[j] == ready[j + 1];
    }
  }

  /** The head is the last message for its topic only if the rest never
      mentions that topic. */
  lemma LastForHead(ready: seq<Message>, t: Topic)
    requires LastFor(ready, 0, t)
    ensures t !in TopicsOf(ready[1..])
  {
    var rest := ready[1..];
    forall j | 0 <= j < |rest| && |rest[j]| == 2
      ensures rest[j][0] != t
    {
      assert rest[j] == ready[j + 1];
    }
  }

  lemma LastForTail(ready: seq<Message>, i: int, t: Topic)
    requires i > 0 && LastFor(ready, i, t)
    ensures LastFor(ready[1..], i - 1, t) && ready[1..][i - 1] == ready[i]
  {
    var rest := ready[1..];
    forall j | i - 1 < j < |rest|
      ensures |rest[j]| == 2 ==> rest[j][0] != t
    {
      assert rest[j] == ready[j + 1];
    }
  }

  /** The drain stops at the first message that does not decode. */
  lemma {:induction false} FoldStopsAtFailure(decode: Decoder, cache: Cache, ready: seq<Message>, k: nat)
    requires k < |ready|
    requires forall j | 0 <= j < k :: decode(ready[j]).Ok?
    requires decode(ready[k]).Err?
    ensures Fold(decode, cache, ready)
            == Drained(Fold(decode, cache, ready[..k]).cache, Some(decode(ready[k]).error), ready[k + 1..])
    decreases k
  {
    if k > 0 {
      var m := decode(ready[0]).value;
      var rest := ready[1..];
      forall j | 0 <= j < k - 1
        ensures decode(rest[j]).Ok?
      {
        assert rest[j] == ready[j + 1];
      }
      FoldStopsAtFailure(decode, cache[m.0 := m.1], rest, k - 1);
      assert ready[..k][1..] == rest[..k - 1];
      assert rest[k - 1] == ready[k];
      assert rest[k..] == ready[k + 1..];
    }
  }

  /** A malformed message ends the drain: the cache is what the messages
      before it left, the error is its error, and the messages after it are
      still unread. */
  lemma DrainStopsAtFailure(cache: Cache, ready: seq<Message>, k: nat)
    requires k < |ready|
    requires forall j | 0 <= j < k :: DecodeMessage(ready[j]).Ok?
    requires DecodeMessage(ready[k]).Err?
    ensures Receive(cache, ready)
            == Drained(Receive(cache, ready[..k]).cache, Some(DecodeMessage(ready[k]).error), ready[k + 1..])
  {
    FoldStopsAtFailure(DecodeMessage, cache, ready, k);
  }

  /** The drain ends without an error exactly when every message decodes. */
  lemma {:induction false} FoldFailsIff(decode: Decoder, cache: Cache, ready: seq<Message>)
    ensures Fold(decode, cache, ready).failure.None? <==> AllOk(decode, ready)
    decreases |ready|
  {
    if |ready| > 0 {
      AllOkCons(decode, ready);
      var m := decode(ready[0]);
      if m.Ok? {
        FoldFailsIff(decode, cache[m.value.0 := m.value.1], ready[1..]);
      }
    }
  }

  lemma AllOkCons(decode: Decoder, ready: seq<Message>)
    requires |ready| > 0
    ensures AllOk(decode, ready) <==> decode(ready[0]).Ok? && AllOk(decode, ready[1..])
  {
    var rest := ready[1..];
    if decode(ready[0]).Ok? && AllOk(decode, rest) {
      forall i | 0 <= i < |ready|
        ensures decode(ready[i]).Ok?
      {
        if i > 0 {
          assert ready[i] == rest[i - 1];
        }
      }
    }
    if AllOk(decode, ready) {
      AllOkTail(decode, ready);
    }
  }

  /** A drain ends without an error exactly when every message of the
      batch decodes. */
  lemma FailsIffMalformed(cache: Cache, ready: seq<Message>)
    ensures Receive(cache, ready).failure.None? <==> AllDecode(ready)
  {
    FoldFailsIff(DecodeMessage, cache, ready);
  }

  lemma {:induction false} SubsetCard<T>(a: set<T>, b: set<T>)
    requires a <= b
    ensures |a| <= |b|
    decreases |b|
  {
    if a != {} {
      var x :| x in a;
      SubsetCard(a - {x}, b - {x});
    }
  }

  /** The cache never outgrows its old entries plus the distinct topics of
      the batch, however many messages the batch holds. */
  lemma CacheBounded(cache: Cache, ready: seq<Message>)
    ensures |Receive(cache, ready).cache| <= |cache| + |TopicsOf(ready)|
  {
    var d := Receive(cache, ready);
    SubsetCard(d.cache.Keys, cache.Keys + TopicsOf(ready));
    assert |d.cache| == |d.cache.Keys|;
    assert |cache| == |cache.Keys|;
  }

  /** One message that decodes to `(t, img)` stores `img` under `t` and the
      drain carries on with the rest. */
  lemma ReceiveStep(cache: Cache, ready: seq<Message>, t: Topic, img: Image)
    requires |ready| > 0 && DecodeMessage(ready[0]) == Ok((t, img))
    ensures Receive(cache, ready) == Receive(cache[t := img], ready[1..])
  {
  }

  /** A message framed as this client expects decodes to its topic and image. */
  lemma FramedMessage(t: Topic, img: Image)
    requires img.Valid(PixelSize) && |img.shape| == 3
    ensures DecodeMessage([t, ImageFrame(img)]) == Ok((t, img))
  {
    DecodeImageFrame(img);
  }

  /** Freshness: three frames for one topic, drained together, leave only
      the third in the cache. */
  lemma FreshestFrameWins(cache: Cache, t: Topic, f1: Image, f2: Image, f3: Image)
    requires f1.Valid(PixelSize) && |f1.shape| == 3
    requires f2.Valid(PixelSize) && |f2.shape| == 3
    requires f3.Valid(PixelSize) && |f3.shape| == 3
    ensures Receive(cache, [[t, ImageFrame(f1)], [t, ImageFrame(f2)], [t, ImageFrame(f3)]])
            == Drained(cache[t := f3], None, [])
  {
    var ms: seq<Message> := [[t, ImageFrame(f1)], [t, ImageFrame(f2)], [t, ImageFrame(f3)]];
    FramedMessage(t, f1);
    FramedMessage(t, f2);
    FramedMessage(t, f3);
    FoldThree(DecodeMessage, cache, ms, t, f1, f2, f3);
    OverwriteLast(cache, t, f1, f2, f3);
  }

  lemma OverwriteLast(cache: Cache, t: Topic, f1: Image, f2: Image, f3: Image)
    ensures cache[t := f1][t := f2][t := f3] == cache[t := f3]
  {
  }

  /** Draining three messages that decode stores their images in arrival order. */
  lemma FoldThree(decode: Decoder, cache: Cache, ms: seq<Message>, t: Topic, f1: Image, f2: Image, f3: Image)
    requires |ms| == 3
    requires decode(ms[0]) == Ok((t, f1)) && decode(ms[1]) == Ok((t, f2)) && decode(ms[2]) == Ok((t, f3))
    ensures Fold(decode, cache, ms) == Drained(cache[t := f1][t := f2][t := f3], None, [])
  {
    var c1 := cache[t := f1];
    var c2 := c1[t := f2];
    assert Fold(decode, cache, ms) == Fold(decode, c1, ms[1..]);
    assert ms[1..][1..] == ms[2..];
    assert Fold(decode, c1, ms[1..]) == Fold(decode, c2, ms[2..]);
    assert ms[2..][1..] == [];
    assert Fold(decode, c2, ms[2..]) == Fold(decode, c2[t := f3], []);
  }

  /** Interleaved topics do not overwrite each other. */
  lemma TopicsIndependent(cache: Cache, l: Topic, r: Topic, l1: Image, r1: Image, l2: Image, r2: Image)
    requires l != r
    requires l1.Valid(PixelSize) && |l1.shape| == 3 && l2.Valid(PixelSize) && |l2.shape| == 3
    requires r1.Valid(PixelSize) && |r1.shape| == 3 && r2.Valid(PixelSize) && |r2.shape| == 3
    ensures Receive(cache, [[l, ImageFrame(l1)], [r, ImageFrame(r1)], [l, ImageFrame(l2)], [r, ImageFrame(r2)]])
            == Drained(cache[l := l2][r := r2], None, [])
  {
    var ms: seq<Message> := [[l, ImageFrame(l1)], [r, ImageFrame(r1)], [l, ImageFrame(l2)], [r, ImageFrame(r2)]];
    FramedMessage(l, l1);
    FramedMessage(r, r1);
    FramedMessage(l, l2);
    FramedMessage(r, r2);
    FoldFour(DecodeMessage, cache, ms, l, l1, r, r1, l2, r2);
    OverwriteCommutes(cache, l, r, l1, r1, l2, r2);
  }

  /** Draining four messages that decode stores their images in arrival order. */
  lemma FoldFour(decode: Decoder, cache: Cache, ms: seq<Message>, l: Topic, l1: Image, r: Topic, r1: Image, l2: Image, r2: Image)
    requires |ms| == 4
    requires decode(ms[0]) == Ok((l, l1)) && decode(ms[1]) == Ok((r, r1))
    requires decode(ms[2]) == Ok((l, l2)) && decode(ms[3]) == Ok((r, r2))
    ensures Fold(decode, cache, ms) == Drained(cache[l := l1][r := r1][l := l2][r := r2], None, [])
  {
    var c1 := cache[l := l1];
    var c2 := c1[r := r1];
    var c3 := c2[l := l2];
    assert Fold(decode, cache, ms) == Fold(decode, c1, ms[1..]);
    assert ms[1..][1..] == ms[2..];
    assert Fold(decode, c1, ms[1..]) == Fold(decode, c2, ms[2..]);
    assert ms[2..][1..] == ms[3..];
    assert Fold(decode, c2, ms[2..]) == Fold(decode, c3, ms[3..]);
    assert ms[3..][1..] == [];
    assert Fold(decode, c3, ms[3..]) == Fold(decode, c3[r := r2], []);
  }

  lemma OverwriteCommutes(cache: Cache, l: Topic, r: Topic, l1: Image, r1: Image, l2: Image, r2: Image)
    requires l != r
    ensures cache[l := l1][r := r1][l := l2][r := r2] == cache[l := l2][r := r2]
  {
  }

  /** `PubServer` sends single-part messages, which this client cannot
      unpack: a drain of them stops at the first with the cache unchanged. */
  lemma SinglePartMessagesRejected(cache: Cache, ready: seq<Message>)
    requires |ready| > 0 && |ready[0]| == 1
    ensures Receive(cache, ready) == Drained(cache, Some(PartCount), ready[1..])
  {
  }

  /** `receive` as the loop it is: poll, take one message, decode, store,
      until nothing is ready or a decode raises. */
  method Drain(cache: Cache, ready: seq<Message>) returns (d: Drained)
    ensures d == Receive(cache, ready)
    ensures d.failure.None? <==> AllDecode(ready)
    ensures d.failure.None? ==> d.cache.Keys == cache.Keys + TopicsOf(ready)
  {
    var c := cache;
    var i := 0;
    while i < |ready|
      invariant 0 <= i <= |ready|
      invariant Receive(c, ready[i..]) == Receive(cache, ready)
      decreases |ready| - i
    {
      var m := DecodeMessage(ready[i]);
      assert ready[i..][1..] == ready[i + 1..];
      if m.Err? {
        return Drained(c, Some(m.error), ready[i + 1..]);
      }
      c := c[m.value.0 := m.value.1];
      i := i + 1;
    }
    assert ready[i..] == [];
    d := Drained(c, None, []);
    FailsIffMalformed(cache, ready);
    if AllDecode(ready) {
      DrainKeepsLatest(cache, ready);
    }
  }
}
