/**
  Byte-level vocabulary shared by both ends of the array stream: bytes,
  32-bit unsigned header words in little-endian order, opaque 4-byte element
  words, and the two `np.frombuffer` reinterpretations the decoders use.
 */
module Wire {

  type byte = x: int | 0 <= x < 256
  type uint32 = x: int | 0 <= x < 0x1_0000_0000

  datatype Option<T> = None | Some(value: T)

  /** The ways a received frame or message can fail to decode. */
  datatype DecodeError =
    | BufferSize     // np.frombuffer: buffer length is not a multiple of the element size
    | ShapeMismatch  // ndarray.reshape: element count differs from the product of the dims
    | MissingDim     // header[k] read past the end of a short header (IndexError)
    | PartCount      // `topic, data = recv_multipart()` on a message that is not two parts

  datatype Result<T> = Ok(value: T) | Err(error: DecodeError) {

    predicate IsFailure() {
      Err?
    }

    function PropagateFailure<U>(): Result<U>
      requires Err?
    {
      Err(error)
    }

    function Extract(): T
      requires Ok?
    {
      value
    }
  }

  /** The item size of float32, the element type the stream carries. */
  const WordSize: nat := 4

  /** One 4-byte element (the bit pattern of a float32), bytes in memory order. */
  datatype Word = Word(b0: byte, b1: byte, b2: byte, b3: byte)

  function WordBytes(w: Word): (s: seq<byte>)
    ensures |s| == 4
  {
    [w.b0, w.b1, w.b2, w.b3]
  }

  function ToWord(s: seq<byte>): (w: Word)
    requires |s| == 4
    ensures WordBytes(w) == s
  {
    Word(s[0], s[1], s[2], s[3])
  }

  /** The unsigned value of a word read little-endian. */
  function WordU32(w: Word): uint32 {
    w.b0 + 256 * (w.b1 + 256 * (w.b2 + 256 * w.b3))
  }

  /** The little-endian bytes of a uint32. */
  function U32Word(x: uint32): Word {
    var q1 := x / 256;
    var q2 := q1 / 256;
    var q3 := q2 / 256;
    Word(x % 256, q1 % 256, q2 % 256, q3)
  }

  /** Writing a uint32 out little-endian and reading it back gives the value. */
  lemma WordU32OfU32Word(x: uint32)
    ensures WordU32(U32Word(x)) == x
  {
    var q1 := x / 256;
    var q2 := q1 / 256;
    assert x == x % 256 + 256 * q1;
    assert q1 == q1 % 256 + 256 * q2;
    assert q2 == q2 % 256 + 256 * (q2 / 256);
  }

  /** Reading a word as a uint32 and writing it back gives the same bytes. */
  lemma U32WordOfWordU32(w: Word)
    ensures U32Word(WordU32(w)) == w
  {
    var hi := w.b1 + 256 * (w.b2 + 256 * w.b3);
    var x := WordU32(w);
    assert x == w.b0 + 256 * hi;
    assert x / 256 == hi && x % 256 == w.b0;
    var mid := w.b2 + 256 * w.b3;
    assert hi / 256 == mid && hi % 256 == w.b1;
    assert mid / 256 == w.b3 && mid % 256 == w.b2;
  }

  /** Only the all-zero word reads as 0. */
  lemma WordU32Zero(w: Word)
    requires WordU32(w) == 0
    ensures w == Word(0, 0, 0, 0)
  {
  }

  /** The bytes at offsets off .. off+3 read as a little-endian uint32. */
  function U32At(bs: seq<byte>, off: int): uint32
    requires 0 <= off && off + 4 <= |bs|
  {
    WordU32(ToWord(bs[off..off + 4]))
  }

  /** Words laid out back to back, each as its four bytes. */
  function Flatten(ws: seq<Word>): (bs: seq<byte>)
    ensures |bs| == 4 * |ws|
  {
    if |ws| == 0 then [] else WordBytes(ws[0]) + Flatten(ws[1..])
  }

  /** Word i of a flattened sequence occupies bytes 4i .. 4i+3. */
  lemma {:induction false} FlattenAt(ws: seq<Word>, i: nat)
    requires i < |ws|
    ensures Flatten(ws)[4 * i..4 * i + 4] == WordBytes(ws[i])
    decreases i
  {
    if i > 0 {
      FlattenAt(ws[1..], i - 1);
      var rest := Flatten(ws[1..]);
      assert Flatten(ws)[4 * i..4 * i + 4] == rest[4 * (i - 1)..4 * (i - 1) + 4];
    }
  }

  lemma FlattenEach(ws: seq<Word>)
    ensures forall i | 0 <= i < |ws| :: Flatten(ws)[4 * i..4 * i + 4] == WordBytes(ws[i])
  {
    forall i | 0 <= i < |ws|
      ensures Flatten(ws)[4 * i..4 * i + 4] == WordBytes(ws[i])
    {
      FlattenAt(ws, i);
    }
  }

  lemma {:induction false} FlattenAppend(a: seq<Word>, b: seq<Word>)
    ensures Flatten(a + b) == Flatten(a) + Flatten(b)
    decreases |a|
  {
    if |a| > 0 {
      assert (a + b)[1..] == a[1..] + b;
      FlattenAppend(a[1..], b);
    } else {
      assert a + b == b;
    }
  }

  /** A byte buffer cut into consecutive 4-byte words. */
  function Words(bs: seq<byte>): (ws: seq<Word>)
    requires |bs| % 4 == 0
    ensures 4 * |ws| == |bs|
    ensures Flatten(ws) == bs
    decreases |bs|
  {
    if |bs| == 0 then []
    else
      var ws := [ToWord(bs[..4])] + Words(bs[4..]);
      assert ws[1..] == Words(bs[4..]);
      assert bs == bs[..4] + bs[4..];
      ws
  }

  /** Flatten loses nothing: cutting its output into words gives the words back. */
  lemma {:induction false} WordsOfFlatten(ws: seq<Word>)
    ensures Words(Flatten(ws)) == ws
    decreases |ws|
  {
    if |ws| > 0 {
      var bs := Flatten(ws);
      assert bs[..4] == WordBytes(ws[0]);
      assert bs[4..] == Flatten(ws[1..]);
      WordsOfFlatten(ws[1..]);
      assert ToWord(WordBytes(ws[0])) == ws[0];
    }
  }

  lemma FlattenInjective(a: seq<Word>, b: seq<Word>)
    requires Flatten(a) == Flatten(b)
    ensures a == b
  {
    WordsOfFlatten(a);
    WordsOfFlatten(b);
  }

  /** `np.frombuffer(bs, dtype)` for a 4-byte element type, as raw words. */
  function FromBufferWords(bs: seq<byte>): (r: Result<seq<Word>>)
    ensures r.Ok? <==> |bs| % 4 == 0
    ensures r.Ok? ==> Flatten(r.value) == bs
    ensures r.Err? ==> r.error == BufferSize
  {
    if |bs| % 4 == 0 then Ok(Words(bs)) else Err(BufferSize)
  }

  /** `np.frombuffer(bs, dtype=np.uint32)`, little-endian. */
  function FromBufferU32(bs: seq<byte>): (r: Result<seq<uint32>>)
    ensures r.Ok? <==> |bs| % 4 == 0
    ensures r.Ok? ==> 4 * |r.value| == |bs|
    ensures r.Ok? ==> forall i | 0 <= i < |r.value| :: r.value[i] == U32At(bs, 4 * i)
    ensures r.Err? ==> r.error == BufferSize
  {
    var ws :- FromBufferWords(bs);
    FlattenEach(ws);
    Ok(seq(|ws|, i requires 0 <= i < |ws| => WordU32(ws[i])))
  }

  /** `np.array(shape, dtype=np.uint32)`: one little-endian word per dimension. */
  function Header(shape: seq<uint32>): (ws: seq<Word>)
    ensures |ws| == |shape|
    ensures forall i | 0 <= i < |shape| :: WordU32(ws[i]) == shape[i]
  {
    assert forall i | 0 <= i < |shape| :: WordU32(U32Word(shape[i])) == shape[i] by {
      forall i | 0 <= i < |shape| {
        WordU32OfU32Word(shape[i]);
      }
    }
    seq(|shape|, i requires 0 <= i < |shape| => U32Word(shape[i]))
  }

  /** Reading the header bytes back as uint32 gives the shape, in order. */
  lemma HeaderRoundTrip(shape: seq<uint32>)
    ensures FromBufferU32(Flatten(Header(shape))) == Ok(shape)
  {
    var hs := Header(shape);
    var bs := Flatten(hs);
    var r := FromBufferU32(bs);
    forall i | 0 <= i < |shape|
      ensures r.value[i] == shape[i]
    {
      FlattenAt(hs, i);
      assert ToWord(WordBytes(hs[i])) == hs[i];
    }
    assert r.value == shape;
  }

  /** The converse: bytes read as uint32 words and written back as a header
      are the same bytes. */
  lemma HeaderOfBytes(bs: seq<byte>)
    requires |bs| % 4 == 0
    ensures Flatten(Header(FromBufferU32(bs).value)) == bs
  {
    var hs := Header(FromBufferU32(bs).value);
    var ws := Words(bs);
    FlattenEach(ws);
    forall i | 0 <= i < |ws|
      ensures hs[i] == ws[i]
    {
      U32WordOfWordU32(hs[i]);
      U32WordOfWordU32(ToWord(bs[4 * i..4 * i + 4]));
      assert ToWord(WordBytes(ws[i])) == ws[i];
    }
    assert hs == ws;
  }
}
