/**
  The receiving side of `lerobot/common/utils/stream.py` (class SubClient):
  the first 8 bytes of a frame are read as the shape and the rest as 4-byte
  elements. The header width is fixed, so only some frames that
  `_serialize_array` writes come back with their shape.
 */
module SubClient {
  import opened Wire
  import opened NdArrays
  import opened PubServer

  /** `SubClient.receive` after `recv`: `data[:8]` as uint32 dims (fewer when
      the buffer is shorter), `data[8:]` as 4-byte elements, then reshape. */
  function DecodeFrame(data: seq<byte>): (r: Result<NdArray<Word>>)
    ensures |data| >= 8 ==> (r.Ok? <==> && |data| - 8 == 4 * (U32At(data, 0) * U32At(data, 4))
                                         && |data| - 8 <= MaxIntp)
    ensures |data| >= 8 && r.Ok? ==>
              && r.value.shape == [U32At(data, 0), U32At(data, 4)]
              && Flatten(r.value.elems) == data[8..]
    ensures |data| < 8 ==> (r.Ok? <==> |data| == 4 && U32At(data, 0) == 0)
    ensures |data| < 8 && r.Ok? ==> r.value == NdArray([0], [])
    ensures r.Ok? ==> r.value.Valid(WordSize)
    ensures r.Err? ==> r.error == (if |data| % 4 == 0 then ShapeMismatch else BufferSize)
  {
    if |data| >= 8 then
      LongFrame(data);
      SplitAt(data, 8)
    else
      ShortFrame(data);
      SplitAt(data, |data|)
  }

  /** `np.frombuffer(data[:h], uint32)` as the shape of
      `np.frombuffer(data[h:], float32)`. */
  function SplitAt(data: seq<byte>, h: nat): Result<NdArray<Word>>
    requires h <= |data|
  {
    var header :- FromBufferU32(data[..h]);
    var elems :- FromBufferWords(data[h..]);
    Reshape(elems, header, WordSize)
  }

  /** A frame of at least 8 bytes: two dims, then the payload. */
  lemma LongFrame(data: seq<byte>)
    requires |data| >= 8
    ensures var r := SplitAt(data, 8);
            && (r.Ok? <==> && |data| - 8 == 4 * (U32At(data, 0) * U32At(data, 4))
                           && |data| - 8 <= MaxIntp)
            && (r.Ok? ==> r.value.shape == [U32At(data, 0), U32At(data, 4)]
                          && Flatten(r.value.elems) == data[8..] && r.value.Valid(WordSize))
            && (r.Err? ==> r.error == (if |data| % 4 == 0 then ShapeMismatch else BufferSize))
  {
    LongHeader(data);
    TwoDims(data, U32At(data, 0), U32At(data, 4));
    WordBytesFitRank2(U32At(data, 0), U32At(data, 4));
  }

  lemma TwoDims(data: seq<byte>, d0: uint32, d1: uint32)
    requires |data| >= 8
    requires FromBufferU32(data[..8]) == Ok([d0, d1])
    ensures var r := SplitAt(data, 8);
            && (r.Ok? <==> |data| - 8 == 4 * (d0 * d1) && BytesFit(WordSize, [d0, d1]))
            && (r.Ok? ==> r.value.shape == [d0, d1] && Flatten(r.value.elems) == data[8..] && r.value.Valid(WordSize))
            && (r.Err? ==> r.error == (if |data| % 4 == 0 then ShapeMismatch else BufferSize))
  {
    SplitAtShape(data, 8, [d0, d1]);
    ProductRank2(d0, d1);
    ModShift(|data|);
  }

  lemma ModShift(n: int)
    requires n >= 8
    ensures (n - 8) % 4 == n % 4
  {
  }

  /** Once `data[:h]` reads as a shape, the frame decodes exactly when the
      rest holds 4 bytes per element of that shape. */
  lemma SplitAtShape(data: seq<byte>, h: nat, shape: seq<uint32>)
    requires h <= |data| && FromBufferU32(data[..h]) == Ok(shape)
    ensures var r := SplitAt(data, h);
            && (r.Ok? <==> |data| - h == 4 * Product(shape) && BytesFit(WordSize, shape))
            && (r.Ok? ==> r.value.shape == shape && Flatten(r.value.elems) == data[h..] && r.value.Valid(WordSize))
            && (r.Err? ==> r.error == (if (|data| - h) % 4 == 0 then ShapeMismatch else BufferSize))
  {
    var er := FromBufferWords(data[h..]);
    if er.Ok? {
      assert SplitAt(data, h) == Reshape(er.value, shape, WordSize);
      assert 4 * |er.value| == |data| - h;
    } else {
      assert SplitAt(data, h) == Err(BufferSize);
      MultipleOfFour(Product(shape));
    }
  }

  lemma MultipleOfFour(p: nat)
    ensures (4 * p) % 4 == 0
  {
  }

  /** `data[:8]` of a long frame is the two dims. */
  lemma LongHeader(data: seq<byte>)
    requires |data| >= 8
    ensures FromBufferU32(data[..8]) == Ok([U32At(data, 0), U32At(data, 4)])
  {
    var hr := FromBufferU32(data[..8]);
    assert hr.Ok? && |hr.value| == 2;
    assert data[..8][0..4] == data[0..4];
    assert data[..8][4..8] == data[4..8];
    assert hr.value[0] == U32At(data[..8], 0);
    assert hr.value[1] == U32At(data[..8], 4);
    assert hr.value == [U32At(data, 0), U32At(data, 4)];
  }

  /** A frame shorter than 8 bytes: at most one dim and no payload. */
  lemma ShortFrame(data: seq<byte>)
    requires |data| < 8
    ensures var r := SplitAt(data, |data|);
            && (r.Ok? <==> |data| == 4 && U32At(data, 0) == 0)
            && (r.Ok? ==> r.value == NdArray([0], []))
            && (r.Err? ==> r.error == (if |data| % 4 == 0 then ShapeMismatch else BufferSize))
  {
    assert data[|data|..] == [];
    assert data[..|data|] == data;
    if |data| == 4 {
      var header := FromBufferU32(data).value;
      assert header == [U32At(data, 0)];
      assert Product(header) == header[0] * Product([]);
      assert NonzeroProduct(header) == (if header[0] == 0 then 1 else header[0]) * NonzeroProduct([]);
    }
  }

  /** Round trip for two-dimensional arrays: the frame decodes to the same
      dims and the same element words in the same order. */
  lemma RoundTripRank2(a: NdArray<Word>)
    requires a.Valid(WordSize) && |a.shape| == 2
    ensures DecodeFrame(SerializeArray(a)) == Ok(a)
  {
    var frame := SerializeArray(a);
    SerializedHeader(a);
    var s0, s1 := a.shape[0], a.shape[1];
    assert a.shape == [s0, s1];
    ProductRank2(s0, s1);
    TwoDims(frame, s0, s1);
    var r := SplitAt(frame, 8);
    assert frame[8..] == Flatten(a.elems) by {
      FlattenAppend(Header(a.shape), a.elems);
    }
    assert r.Ok?;
    FlattenInjective(r.value.elems, a.elems);
    assert r == Ok(a);
    assert DecodeFrame(frame) == r;
  }

  /** The first 4·rank bytes of a serialised array read back as its shape. */
  lemma SerializedHeader(a: NdArray<Word>)
    ensures FromBufferU32(SerializeArray(a)[..4 * |a.shape|]) == Ok(a.shape)
  {
    var h := Flatten(Header(a.shape));
    assert SerializeArray(a)[..4 * |a.shape|] == h by {
      assert SerializeArray(a) == h + Flatten(a.elems);
    }
    HeaderRoundTrip(a.shape);
  }

  /** Decoding is exact: a frame that decodes to `a` is precisely the
      serialisation of `a`. */
  lemma DecodeFrameExact(data: seq<byte>, a: NdArray<Word>)
    requires DecodeFrame(data) == Ok(a)
    ensures SerializeArray(a) == data
  {
    if |data| >= 8 {
      LongFrameExact(data, a);
    } else {
      ShortFrameExact(data, a.shape, a.elems);
    }
  }

  lemma LongFrameExact(data: seq<byte>, a: NdArray<Word>)
    requires |data| >= 8 && DecodeFrame(data) == Ok(a)
    ensures SerializeArray(a) == data
  {
    LongHeader(data);
    HeaderOfBytes(data[..8]);
    FlattenAppend(Header(a.shape), a.elems);
    assert data == data[..8] + data[8..];
  }

  /** The one short frame that decodes, four zero bytes, is the frame of the
      empty vector. */
  lemma ShortFrameExact(data: seq<byte>, shape: seq<uint32>, elems: seq<Word>)
    requires |data| == 4 && U32At(data, 0) == 0
    requires |shape| == 1 && shape[0] == 0 && |elems| == 0
    ensures SerializeArray(NdArray(shape, elems)) == data
  {
    SerializedWord(NdArray(shape, elems), 0);
    SameWord(SerializeArray(NdArray(shape, elems)), data);
  }

  /** Four bytes are determined by the uint32 they read as. */
  lemma SameWord(x: seq<byte>, y: seq<byte>)
    requires |x| == 4 && |y| == 4 && U32At(x, 0) == U32At(y, 0)
    ensures x == y
  {
    U32WordOfWordU32(ToWord(x[0..4]));
    U32WordOfWordU32(ToWord(y[0..4]));
    assert x[0..4] == x && y[0..4] == y;
  }

  /** The decoded shape never records the rank: a serialised array comes back
      as itself exactly when it is two-dimensional or the empty
      one-dimensional array (whose 4-byte frame fits inside the header). */
  lemma RoundTripIffRank2(a: NdArray<Word>)
    requires a.Valid(WordSize)
    ensures DecodeFrame(SerializeArray(a)) == Ok(a) <==> |a.shape| == 2 || a.shape == [0]
  {
    if DecodeFrame(SerializeArray(a)) == Ok(a) {
      DecodedShape(SerializeArray(a), a);
    }
    if |a.shape| == 2 {
      RoundTripRank2(a);
    } else if a.shape == [0] {
      EmptyVectorRoundTrip(a);
    }
  }

  /** Every array the decoder yields has two dims or is the empty vector. */
  lemma DecodedShape(data: seq<byte>, a: NdArray<Word>)
    requires DecodeFrame(data) == Ok(a)
    ensures |a.shape| == 2 || a.shape == [0]
  {
    if |data| >= 8 {
      assert a.shape == [U32At(data, 0), U32At(data, 4)];
    }
  }

  /** The empty one-dimensional array: its frame is the single dim 0. */
  lemma EmptyVectorRoundTrip(a: NdArray<Word>)
    requires a.Valid(WordSize) && a.shape == [0]
    ensures DecodeFrame(SerializeArray(a)) == Ok(a)
  {
    EmptyVectorHasNoElements(a);
    SerializedWord(a, 0);
    ZeroWordFrame(SerializeArray(a));
  }

  lemma EmptyVectorHasNoElements(a: NdArray<Word>)
    requires a.Valid(WordSize) && a.shape == [0]
    ensures a == NdArray([0], [])
  {
    ProductRank1(0);
  }

  /** Four zero bytes decode as the empty vector. */
  lemma ZeroWordFrame(data: seq<byte>)
    requires |data| == 4 && U32At(data, 0) == 0
    ensures DecodeFrame(data) == Ok(NdArray([0], []))
  {
  }

  /** A rank-3 frame decodes without any error only in one case, and then to
      the wrong array: shape (1, 1, 0) comes back as a 1x1 array, its third
      dimension taken for the element. Every other rank-3 frame fails. */
  lemma Rank3SilentlyMisparsed(a: NdArray<Word>)
    requires a.Valid(WordSize) && |a.shape| == 3
    ensures DecodeFrame(SerializeArray(a)).Ok? <==> a.shape == [1, 1, 0]
    ensures DecodeFrame(SerializeArray(a)).Ok? ==>
              DecodeFrame(SerializeArray(a)).value == NdArray([1, 1], [Word(0, 0, 0, 0)])
  {
    ShapeIs110(a.shape);
    if a.shape[0] == 1 && a.shape[1] == 1 && a.shape[2] == 0 {
      ZeroLastDim(a);
      OneByOneLayout(a);
      OneByOneFrame(SerializeArray(a));
    } else {
      Rank3Rejected(a);
    }
  }

  lemma ShapeIs110(shape: seq<uint32>)
    requires |shape| == 3
    ensures shape == [1, 1, 0] <==> shape[0] == 1 && shape[1] == 1 && shape[2] == 0
  {
    if shape[0] == 1 && shape[1] == 1 && shape[2] == 0 {
      assert shape == [shape[0], shape[1], shape[2]];
    }
  }

  /** The frame of a (1, 1, 0) array: three words and no payload. */
  lemma OneByOneLayout(a: NdArray<Word>)
    requires |a.shape| == 3 && |a.elems| == 0
    requires a.shape[0] == 1 && a.shape[1] == 1 && a.shape[2] == 0
    ensures |SerializeArray(a)| == 12
    ensures U32At(SerializeArray(a), 0) == 1 && U32At(SerializeArray(a), 4) == 1
    ensures U32At(SerializeArray(a), 8) == 0
  {
    SerializedWord(a, 0);
    SerializedWord(a, 1);
    SerializedWord(a, 2);
  }

  /** A rank-3 shape with a zero last dimension holds no elements. */
  lemma ZeroLastDim(a: NdArray<Word>)
    requires a.Valid(WordSize) && |a.shape| == 3 && a.shape[2] == 0
    ensures |a.elems| == 0
  {
    var s0, s1, s2 := a.shape[0], a.shape[1], a.shape[2];
    assert a.shape == [s0, s1, s2];
    ProductRank3(s0, s1, s2);
  }

  /** Every other valid rank-3 array's frame fails to decode. */
  lemma Rank3Rejected(a: NdArray<Word>)
    requires a.Valid(WordSize) && |a.shape| == 3
    requires !(a.shape[0] == 1 && a.shape[1] == 1 && a.shape[2] == 0)
    ensures DecodeFrame(SerializeArray(a)).Err?
  {
    Rank3Mismatch(a);
    SerializedWord(a, 0);
    SerializedWord(a, 1);
    Rank3Decodes(SerializeArray(a), a.shape[0], a.shape[1], Product(a.shape));
  }

  /** A rank-3 array holds d0·d1 - 1 elements only for shape (1, 1, 0). */
  lemma Rank3Mismatch(a: NdArray<Word>)
    requires |a.shape| == 3
    ensures Product(a.shape) + 1 == (a.shape[0] as int) * (a.shape[1] as int) <==>
              a.shape[0] == 1 && a.shape[1] == 1 && a.shape[2] == 0
  {
    var s0, s1, s2 := a.shape[0], a.shape[1], a.shape[2];
    assert a.shape == [s0, s1, s2];
    ProductRank3(s0, s1, s2);
    Rank3Payload(s0, s1, s2);
  }

  /** A frame of 12 + 4p bytes whose first two words read d0 and d1. */
  lemma Rank3Decodes(frame: seq<byte>, d0: nat, d1: nat, p: nat)
    requires |frame| == 12 + 4 * p
    requires U32At(frame, 0) == d0 && U32At(frame, 4) == d1
    ensures DecodeFrame(frame).Ok? <==> p + 1 == d0 * d1 && 4 + 4 * p <= MaxIntp
  {
  }

  /** 4 + 4·d0·d1·d2 payload bytes hold d0·d1 words only for (1, 1, 0). */
  lemma Rank3Payload(d0: nat, d1: nat, d2: nat)
    ensures d0 * (d1 * d2) + 1 == d0 * d1 <==> d0 == 1 && d1 == 1 && d2 == 0
  {
    var p := d0 * d1;
    assert d0 * (d1 * d2) == p * d2;
    if d2 >= 1 {
      assert p * d2 >= p;
    }
  }

  /** Twelve bytes reading 1, 1, 0 decode as a 1x1 array holding the zero word. */
  lemma OneByOneFrame(frame: seq<byte>)
    requires |frame| == 12
    requires U32At(frame, 0) == 1 && U32At(frame, 4) == 1 && U32At(frame, 8) == 0
    ensures DecodeFrame(frame) == Ok(NdArray([1, 1], [Word(0, 0, 0, 0)]))
  {
    LongHeader(frame);
    TwoDims(frame, 1, 1);
    WordBytesFitRank2(1, 1);
    var r := SplitAt(frame, 8);
    var e := r.value.elems;
    assert |e| == 1;
    FlattenAt(e, 0);
    assert WordBytes(e[0]) == frame[8..12];
    assert ToWord(WordBytes(e[0])) == e[0];
    WordU32Zero(e[0]);
    Singleton(e, Word(0, 0, 0, 0));
  }

  /** A vector of n >= 1 elements has an 8-byte-or-longer frame whose second
      header word is its first element. It decodes without error exactly when
      it holds one element and that element is the zero word (float32 +0.0),
      and then it comes back as an empty 1x0 array. */
  lemma Rank1Misparsed(a: NdArray<Word>)
    requires |a.shape| == 1 && a.shape[0] >= 1 && |a.elems| == a.shape[0]
    ensures a.Valid(WordSize)
    ensures DecodeFrame(SerializeArray(a)).Ok? <==> a.shape[0] == 1 && WordU32(a.elems[0]) == 0
    ensures DecodeFrame(SerializeArray(a)).Ok? ==> DecodeFrame(SerializeArray(a)).value == NdArray([1, 0], [])
  {
    ProductRank1(a.shape[0]);
    assert a.shape == [a.shape[0]];
    assert NonzeroProduct(a.shape) == a.shape[0] * NonzeroProduct([]);
    var frame := SerializeArray(a);
    SerializedWord(a, 0);
    FlattenAt(a.elems, 0);
    assert frame[4..8] == frame[4..][0..4];
    assert ToWord(WordBytes(a.elems[0])) == a.elems[0];
    VectorFrame(frame, a.shape[0], WordU32(a.elems[0]));
  }

  /** A 0-d array (one element, no dims) has a 4-byte frame that is just
      its element. It decodes without error exactly when that element is the
      zero word (float32 +0.0), and then it comes back as the empty vector. */
  lemma Rank0Misparsed(a: NdArray<Word>)
    requires a.Valid(WordSize) && |a.shape| == 0
    ensures DecodeFrame(SerializeArray(a)).Ok? <==> WordU32(a.elems[0]) == 0
    ensures DecodeFrame(SerializeArray(a)).Ok? ==> DecodeFrame(SerializeArray(a)).value == NdArray([0], [])
  {
    var frame := SerializeArray(a);
    assert frame == Flatten(a.elems);
    FlattenAt(a.elems, 0);
    assert frame[0..4] == WordBytes(a.elems[0]);
    assert ToWord(WordBytes(a.elems[0])) == a.elems[0];
  }

  /** A frame of 4 + 4n bytes whose words 0 and 1 read n and w. */
  lemma VectorFrame(frame: seq<byte>, n: nat, w: uint32)
    requires n >= 1 && |frame| == 4 + 4 * n && U32At(frame, 0) == n && U32At(frame, 4) == w
    ensures DecodeFrame(frame).Ok? <==> n == 1 && w == 0
    ensures DecodeFrame(frame).Ok? ==> DecodeFrame(frame).value == NdArray([1, 0], [])
  {
    VectorPayload(n, w);
  }

  /** 4n - 4 payload bytes hold n·w words only for n = 1 and w = 0. */
  lemma VectorPayload(n: nat, w: nat)
    requires n >= 1
    ensures 4 + 4 * n - 8 == 4 * (n * w) <==> n == 1 && w == 0
  {
    if w >= 1 {
      assert n * w >= n;
    }
  }

  lemma Singleton<T>(e: seq<T>, x: T)
    requires |e| == 1 && e[0] == x
    ensures e == [x]
  {
  }

}
