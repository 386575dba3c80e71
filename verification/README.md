# Array stream framing and the vision client, in Dafny

This project models the array streaming core of the lerobot fork:

- `lerobot/common/utils/stream.py`
  - `PubServer` frames numpy arrays as a shape header followed by
    float32 payload bytes. It queues them with `publish` and sends them
    from a publisher loop.
  - `SubClient.receive` reads a frame back as an 8-byte header of two
    uint32 dims plus float32 elements.
- `lerobot/common/utils/client.py`
  - `VisionClient.receive` drains every ready `(topic, data)` message.
    Each data part is decoded as a 12-byte header of three uint32 dims
    plus uint8 pixels.
  - The image is stored under its topic in `latest_images`, so that only
    the newest image per topic survives.

The modules follow the program:

| module | file | contents |
|---|---|---|
| `Wire` | `wire.dfy` | bytes, uint32 and little-endian header words, opaque 4-byte element words, `np.frombuffer` for uint32 and for 4-byte elements, and the failure kinds (`DecodeError`) |
| `NdArrays` | `ndarrays.dfy` | a numpy array as shape plus row-major elements, and `reshape` |
| `PubServer` | `pub_server.dfy` | `_serialize_array`, `publish`, one step of `_publisher_loop`, and a run of steps |
| `SubClient` | `sub_client.dfy` | `SubClient.receive`'s decoding and its round-trip behaviour |
| `VisionClient` | `vision_client.dfy` | the image decoder, message unpacking, the drain of `receive` as a function (`Receive`) and as a loop (`Drain`) |

Every numpy or unpacking exception on these paths becomes an `Err` of
`DecodeError`:

- `np.frombuffer` on a length that is not a multiple of the element size
  fails with `BufferSize`.
- `reshape` fails with `ShapeMismatch` in three ways, each a ValueError
  in numpy:
  - Reshape's own check fails. It multiplies the dims left to right as a
    signed 64-bit count and fails once a partial product passes 2^63 − 1
    (`NdArrays.SizeFits`).
  - The product of the dims differs from the element count.
  - Creating the new array fails ("array is too big"). Creation
    multiplies the item size by every nonzero dim and fails if that
    passes 2^63 − 1 (`NdArrays.BytesFit`).

  The creation check is the stricter of the two size checks
  (`NdArrays.CreationCoversReshape`). A zero dim does not rescue a shape
  such as (0, 2^32 − 1, 2^32 − 1).
- `header[k]` past the end of a short header fails with `MissingDim`.
- `topic, data = recv_multipart()` on a message that does not have two
  parts fails with `PartCount`.

The model follows the code. Several behaviours it shows are easy to miss
when reading the classes:

- **No rank field.** `_serialize_array` writes one uint32 per dimension
  and no rank (`stream.py:16`). `SubClient.receive` always reads exactly
  8 header bytes (`stream.py:44`). A frame of at least 8 bytes therefore
  decodes to exactly two dimensions. A 4-byte frame yields a single
  dimension, because `data[:8]` is then shorter than 8 bytes
  (`SubClient.DecodeFrame`). So a frame comes back as itself exactly
  when the array is two-dimensional or is the empty one-dimensional array
  (`SubClient.RoundTripIffRank2`). The other ranks mostly fail, but not
  always. Three ranks are fully characterised:
  - Rank 0: a 0-d array decodes with no error exactly when its element is
    the zero word. It comes back as the empty vector
    (`SubClient.Rank0Misparsed`).
  - Rank 1: of all non-empty vectors, exactly the one-element vector
    holding the zero word decodes. It comes back with shape (1, 0) and no
    elements (`SubClient.Rank1Misparsed`).
  - Rank 3: exactly the arrays of shape (1, 1, 0) decode. They come back
    as a 1×1 array that holds one zero word
    (`SubClient.Rank3SilentlyMisparsed`).

  Ranks of four and more are not characterised, and some of them decode
  too.
- **The publisher queue is unbounded.** It never coalesces or drops
  arrays: they are sent one per loop step, oldest first
  (`PubServer.RunSendsInQueueOrder`, `PubServer.DrainAfterPublishes`).
- **A bad message ends `receive`.** A message that fails to decode
  raises out of the loop. Images already stored in that call stay, and
  the messages behind the bad one stay unread
  (`VisionClient.DrainStopsAtFailure`).
- **The two ends do not match.** `PubServer` sends single-part messages
  with a float32 payload. `VisionClient` expects two-part messages with a
  uint8 payload. So it rejects both the message shape
  (`VisionClient.SinglePartMessagesRejected`) and, when handed the data
  part alone, the payload size (`VisionClient.StreamFrameRejected`).

## Model

| member | source | states |
|---|---|---|
| Wire.FromBufferU32 | lerobot/common/utils/stream.py:44 | `np.frombuffer(_, uint32)` succeeds exactly when the length is a multiple of 4. It then yields one value per 4 bytes, value i read little-endian from bytes 4i..4i+3. Otherwise it fails with BufferSize |
| Wire.FromBufferWords | lerobot/common/utils/stream.py:45 | `np.frombuffer(_, float32)` succeeds exactly when the length is a multiple of 4. The words it yields, laid back out, are the input bytes. Otherwise it fails with BufferSize |
| Wire.Header | lerobot/common/utils/stream.py:16 | the shape header has one word per dimension, and word i reads back as dimension i |
| Wire.WordU32OfU32Word | lerobot/common/utils/stream.py:16 | writing a uint32 little-endian and reading it back gives the same value |
| Wire.U32WordOfWordU32 | lerobot/common/utils/stream.py:44 | reading 4 bytes as a uint32 and writing the value back gives the same bytes |
| Wire.HeaderRoundTrip | lerobot/common/utils/stream.py:16 | the header bytes of any shape, read back with `frombuffer(uint32)`, give that shape |
| Wire.WordsOfFlatten | lerobot/common/utils/stream.py:17 | the element bytes `tobytes` writes, cut back into 4-byte words, give the same words in the same order |
| NdArrays.Reshape | lerobot/common/utils/stream.py:45 | `reshape` succeeds exactly when the element count equals the product of the dims and the item size times the product of the nonzero dims is at most 2^63 − 1. It keeps the elements in order and yields a consistent array. Otherwise it fails with ShapeMismatch |
| NdArrays.CreationCoversReshape | lerobot/common/utils/stream.py:45 | a shape that passes numpy's array-creation bound also passes reshape's left-to-right overflow check, so that check never decides the outcome |
| NdArrays.WordBytesFitRank2 | lerobot/common/utils/stream.py:45 | two dims of float32 items pass the creation bound exactly when 4 bytes per element of their product is at most 2^63 − 1 |
| PubServer.SerializeArray | lerobot/common/utils/stream.py:14-18 | the frame is 4 bytes per dimension plus 4 per element. The 4-byte word at offset 4i reads as dimension i, and everything after the header is the elements' bytes in order |
| PubServer.Publish | lerobot/common/utils/stream.py:26-28 | `publish` grows the queue by one, puts the array last and leaves every earlier entry in place |
| PubServer.PublishAllAppends | lerobot/common/utils/stream.py:26-28 | a sequence of `publish` calls leaves the old queue followed by the arrays in call order |
| PubServer.PublisherStep | lerobot/common/utils/stream.py:20-24 | one loop step sends nothing exactly when the queue is empty, and then leaves it as it was. Otherwise it removes the head and sends that head's serialisation |
| PubServer.RunSendsEach | lerobot/common/utils/stream.py:20-24 | after n steps, min(n, queue length) frames have been sent, and frame i is the serialisation of queue entry i |
| PubServer.RunSendsInQueueOrder | lerobot/common/utils/stream.py:20-24 | after n steps, with k = min(n, queue length), the frames sent are the serialisations of the first k entries, one each, in queue order, and exactly the other entries remain queued |
| PubServer.PublishCommutesWithStep | lerobot/common/utils/stream.py:22-28 | on a non-empty queue, a `publish` racing a loop step changes neither the frame sent nor the resulting queue |
| PubServer.DrainAfterPublishes | lerobot/common/utils/stream.py:20-28 | after publishing xs, enough steps empty the queue. The frames sent are the serialisations of the old entries and then of every published array, each once, in publish order |
| SubClient.DecodeFrame | lerobot/common/utils/stream.py:41-46 | a frame of at least 8 bytes decodes exactly when its payload is 4 bytes per element for the two header dims and that payload is at most 2^63 − 1 bytes. It then yields those dims and the payload words. A shorter frame decodes only if it is the single dim 0, giving the empty vector. Failures are BufferSize for a length that is not a multiple of 4, else ShapeMismatch |
| SubClient.SerializedHeader | lerobot/common/utils/stream.py:16 | the first 4·rank bytes of a serialised array read back as its shape |
| SubClient.RoundTripRank2 | lerobot/common/utils/stream.py:41-46 | every consistent two-dimensional array comes back from its frame unchanged |
| SubClient.DecodeFrameExact | lerobot/common/utils/stream.py:41-46 | any frame that decodes to an array, long or short, is exactly that array's serialisation |
| SubClient.DecodedShape | lerobot/common/utils/stream.py:44-45 | whatever the decoder yields has exactly two dims or is the empty vector |
| SubClient.RoundTripIffRank2 | lerobot/common/utils/stream.py:44-45 | a consistent array survives serialise-then-decode if and only if it is two-dimensional or is the empty vector |
| SubClient.EmptyVectorRoundTrip | lerobot/common/utils/stream.py:44-45 | the empty one-dimensional array survives the round trip even though its frame is shorter than the header |
| SubClient.Rank3SilentlyMisparsed | lerobot/common/utils/stream.py:44-45 | the frame of a consistent rank-3 array decodes without error if and only if the shape is (1, 1, 0). It then yields a different array, of shape (1, 1), holding one zero word |
| SubClient.Rank0Misparsed | lerobot/common/utils/stream.py:44-45 | the frame of a consistent 0-d array decodes without error if and only if its element is the zero word. It then yields a different array, the empty vector |
| SubClient.Rank1Misparsed | lerobot/common/utils/stream.py:44-45 | the frame of a consistent non-empty vector decodes without error if and only if it has one element and that element is the zero word. It then yields a different array, of shape (1, 0), with no elements |
| VisionClient.DecodeImage | lerobot/common/utils/client.py:37-39 | data decodes exactly when it has 12 header bytes, one pixel byte per element of the three dims, and the product of the nonzero dims is at most 2^63 − 1 (numpy's array-creation bound for 1-byte items). It then yields those dims and the bytes after the header. Shorter data fails with BufferSize or, if its length is a multiple of 4, with MissingDim. Longer data that does not match fails with ShapeMismatch |
| VisionClient.DecodeImageFrame | lerobot/common/utils/client.py:37-39 | a consistent rank-3 image framed as header plus pixels decodes back to itself. Consistent means the element count matches the shape and the shape passes numpy's array-creation bound, which every numpy array does |
| VisionClient.OverflowingDimsRejected | lerobot/common/utils/client.py:39 | data in which any two of the three dims multiply past 2^63 − 1 is refused with ShapeMismatch, even when the remaining dim is zero and there are no pixels to hold |
| VisionClient.ZeroFirstDimImageRejected | lerobot/common/utils/client.py:39 | the 12-byte header (0, 0xFFFFFFFF, 0xFFFFFFFF) with no pixels is refused with ShapeMismatch |
| VisionClient.MaxDimsEmptyImageRejected | lerobot/common/utils/client.py:39 | the 12-byte header (0xFFFFFFFF, 0xFFFFFFFF, 0) with no pixels is refused with ShapeMismatch |
| VisionClient.DecodeImageExact | lerobot/common/utils/client.py:37-39 | anything that decodes to an image is a consistent rank-3 image's frame |
| VisionClient.DecodeImageIffFrame | lerobot/common/utils/client.py:37-39 | data decodes to image a if and only if a is a consistent rank-3 image (count and creation bound) and the data is its frame |
| VisionClient.StreamFrameRejected | lerobot/common/utils/client.py:39 | a non-empty rank-3 frame written by `_serialize_array` is refused with ShapeMismatch, because it carries 4 bytes per element instead of 1 |
| VisionClient.DecodeMessage | lerobot/common/utils/client.py:36-39 | a message decodes exactly when it has two parts and the second decodes. The result is the raw topic part and that image. Any other part count fails with PartCount |
| VisionClient.Receive | lerobot/common/utils/client.py:31-42 | a drain never loses a key, and only adds the topics of the batch. Entries for topics not in the batch are untouched. A clean drain reads everything; a failed one leaves a strict suffix of the batch unread |
| VisionClient.DrainKeepsLatest | lerobot/common/utils/client.py:33-40 | when every message decodes, the drain reads them all and the keys become the old keys plus the batch's topics. Every topic holds the image of its last message in the batch |
| VisionClient.DrainStopsAtFailure | lerobot/common/utils/client.py:36-40 | if message k is the first that fails, the cache is what messages 0..k-1 produced, the error is message k's error, and messages k+1.. stay unread |
| VisionClient.FailsIffMalformed | lerobot/common/utils/client.py:36-39 | a drain ends without an error if and only if every message of the batch decodes |
| VisionClient.CacheBounded | lerobot/common/utils/client.py:40 | after a drain, the cache holds at most its old entries plus the number of distinct topics, however long the batch |
| VisionClient.ReceiveStep | lerobot/common/utils/client.py:36-40 | a message that decodes stores its image under its topic, and the drain continues with the rest |
| VisionClient.FreshestFrameWins | lerobot/common/utils/client.py:40 | three frames for one topic drained together leave only the third one stored |
| VisionClient.TopicsIndependent | lerobot/common/utils/client.py:40 | for interleaved frames of two distinct topics, each topic ends with its own last frame |
| VisionClient.SinglePartMessagesRejected | lerobot/common/utils/client.py:36 | a single-part message at the head of the batch stops the drain with PartCount, leaves the cache unchanged and leaves the rest unread |
| VisionClient.Drain | lerobot/common/utils/client.py:31-42 | the loop computes the same result as `Receive`. It ends without an error exactly when every message decodes, and then the keys are the old keys plus the batch's topics |

## Left out

- The ZeroMQ context, sockets, subscription, poller and socket options
  (`RCVHWM`, `CONFLATE`, keep-alive, affinity) are left out. They are
  transport. `receive` is given the finite sequence of messages that are
  ready when it is called, and each publisher step reports the bytes it
  would send. Any dropping or conflation the transport may do is outside
  the model.
- The 1 ms poll timeout, the daemon thread and `start` are left out.
  `_publisher_loop` is modelled as one step (`PubServer.PublisherStep`)
  and as a finite run of steps (`PubServer.Run`). Its endless busy loop is
  not modelled.
- `arr.astype(np.float32)` is left out. Elements are opaque 4-byte words,
  taken to be the float32 bit patterns already. Float conversion and
  rounding are floating point and are not modelled.
- numpy's native byte order is fixed to little-endian, and its count type
  `npy_intp` to 64 bits (`NdArrays.MaxIntp`).
- The sequences of the model are unbounded, and Python's bytes are at
  most 2^63 − 1 long. `np.frombuffer`'s own array-creation check is left
  out. It can only fail on a buffer longer than 2^63 − 1 bytes. On the
  decode paths here, such a payload fails in `reshape` anyway, by the
  same creation bound.
- Python's bytes and numpy's dtypes are not modelled beyond this framing.
- `topic.decode()` is left out: topics are kept as their raw bytes. A
  topic that is not valid UTF-8 would raise in the source, and the model
  does not raise.
- `configure_rerun` and the `__main__` block of `client.py` are left out.
  They are display, argument parsing and timing code outside the core.
- PubServer.SerializeArray: a shape is a sequence of uint32, so shapes
  with a dimension of 2^32 or more are not modelled. On such a dimension
  `np.array(arr.shape, dtype=np.uint32)` either wraps it (NumPy 1.x) or
  raises OverflowError (NumPy 2 and later). Neither is modelled.
- The queue holds snapshots. The model stores each array's value as it
  was at `publish`. `queue.put` stores a reference (`stream.py:28`), and
  the array is only serialised when it is dequeued (`stream.py:23-24`).
  So a caller that mutates the array after `publish` changes what is
  sent, and the model does not show that.
- A queue head that cannot be serialised is left out. Examples are a
  non-array without `.shape`, or an element type that
  `astype(np.float32)` rejects. Such a head raises inside the daemon
  thread at `stream.py:24`. That ends `_publisher_loop` for good, so no
  later publish is ever sent. In the model every queued value is an
  array of 4-byte words, so every step succeeds.
- An empty `np.frombuffer` buffer is taken to yield an empty array, as
  current numpy does. So a zero-length data part fails with MissingDim in
  `VisionClient.DecodeImage`, and with ShapeMismatch in
  `SubClient.DecodeFrame`.
