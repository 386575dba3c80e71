/**
  The part of a numpy array the stream carries: a shape and the elements in
  C (row-major) order, plus `reshape`, the only operation the decoders apply.
 */
module NdArrays {
  import opened Wire

  /** Number of elements an array of this shape holds (1 for the empty shape). */
  function Product(shape: seq<uint32>): nat {
    if |shape| == 0 then 1 else shape[0] * Product(shape[1..])
  }

  /** `NPY_MAX_INTP` on a 64-bit platform: numpy counts elements in a signed
      64-bit `npy_intp`. */
  const MaxIntp: nat := 0x7FFF_FFFF_FFFF_FFFF

  /** numpy's size check in `reshape`: the dims are multiplied left to right,
      and the check fails as soon as a partial product passes MaxIntp. A zero
      dim does not rescue a product that already overflowed. */
  predicate SizeFits(shape: seq<uint32>) {
    FitsFrom(1, shape)
  }

  /** The check from a partial product `acc` onwards. */
  predicate FitsFrom(acc: nat, dims: seq<uint32>)
    decreases |dims|
  {
    |dims| == 0 || (acc * dims[0] <= MaxIntp && FitsFrom(acc * dims[0], dims[1..]))
  }

  /** The product of the nonzero dims (1 for none): a zero dim counts as 1. */
  function NonzeroProduct(shape: seq<uint32>): nat {
    if |shape| == 0 then 1
    else (if shape[0] == 0 then 1 else shape[0]) * NonzeroProduct(shape[1..])
  }

  /** numpy's check when it creates an array: the item size times every
      nonzero dim, multiplied with an overflow check, must not pass MaxIntp
      ("array is too big"). All factors are at least 1, so checking the final
      product is the same as checking each step. */
  predicate BytesFit(itemsize: nat, shape: seq<uint32>) {
    itemsize * NonzeroProduct(shape) <= MaxIntp
  }

  datatype NdArray<E> = NdArray(shape: seq<uint32>, elems: seq<E>) {
    /** numpy's own invariant for items of `itemsize` bytes: the element count
        matches the shape, and the array passes the creation check. */
    predicate Valid(itemsize: nat) {
      |elems| == Product(shape) && BytesFit(itemsize, shape)
    }
  }

  /** `elems.reshape(shape)` on a one-dimensional buffer of `itemsize`-byte
      items. numpy first runs reshape's own check and compares the element
      count with the product of the dims ("cannot reshape"), then creates the
      new view, which runs the creation check ("array is too big"). Every
      failure is a ValueError. Reshape's own check never fails when the
      creation check passes (`CreationCoversReshape`), so success depends on
      the count and the creation check alone. */
  function Reshape<E>(elems: seq<E>, shape: seq<uint32>, itemsize: nat): (r: Result<NdArray<E>>)
    requires itemsize >= 1
    ensures r.Ok? <==> |elems| == Product(shape) && BytesFit(itemsize, shape)
    ensures r.Ok? ==> r.value.shape == shape && r.value.elems == elems && r.value.Valid(itemsize)
    ensures r.Err? ==> r.error == ShapeMismatch
  {
    if BytesFit(itemsize, shape) then CreationCoversReshape(itemsize, shape); ReshapeSteps(elems, shape, itemsize)
    else ReshapeSteps(elems, shape, itemsize)
  }

  /** The steps of `reshape` in numpy's order, before any fact about them. */
  function ReshapeSteps<E>(elems: seq<E>, shape: seq<uint32>, itemsize: nat): Result<NdArray<E>> {
    if !SizeFits(shape) then Err(ShapeMismatch)
    else if |elems| != Product(shape) then Err(ShapeMismatch)
    else if !BytesFit(itemsize, shape) then Err(ShapeMismatch)
    else Ok(NdArray(shape, elems))
  }

  /** An array that passes the creation check passes reshape's
      left-to-right check too. */
  lemma CreationCoversReshape(itemsize: nat, shape: seq<uint32>)
    requires itemsize >= 1 && BytesFit(itemsize, shape)
    ensures SizeFits(shape)
  {
    assert NonzeroProduct(shape) <= itemsize * NonzeroProduct(shape);
    FitsFromNonzero(1, shape);
  }

  lemma {:induction false} FitsFromNonzero(acc: nat, dims: seq<uint32>)
    requires acc * NonzeroProduct(dims) <= MaxIntp
    ensures FitsFrom(acc, dims)
    decreases |dims|
  {
    if |dims| > 0 {
      var d, rest := dims[0], NonzeroProduct(dims[1..]);
      if d == 0 {
        FitsFromNonzero(0, dims[1..]);
      } else {
        assert NonzeroProduct(dims) == d * rest;
        NonzeroProductPositive(dims[1..]);
        StepBound(acc, d, rest);
        FitsFromNonzero(acc * d, dims[1..]);
      }
    }
  }

  /** One step of the left-to-right product stays below the whole. */
  lemma StepBound(acc: nat, d: nat, rest: nat)
    requires d >= 1 && rest >= 1 && acc * (d * rest) <= MaxIntp
    ensures acc * d <= MaxIntp && (acc * d) * rest <= MaxIntp
  {
    var x := acc * d;
    assert x * rest == acc * (d * rest);
    assert x * rest == x * (rest - 1) + x;
  }

  lemma {:induction false} NonzeroProductPositive(shape: seq<uint32>)
    ensures NonzeroProduct(shape) >= 1
    decreases |shape|
  {
    if |shape| > 0 {
      NonzeroProductPositive(shape[1..]);
    }
  }

  /** Three dims: the product of the nonzero ones. */
  lemma NonzeroRank3(d0: uint32, d1: uint32, d2: uint32)
    ensures NonzeroProduct([d0, d1, d2]) ==
              (if d0 == 0 then 1 else d0) * ((if d1 == 0 then 1 else d1) * (if d2 == 0 then 1 else d2))
  {
    assert [d0, d1, d2][1..] == [d1, d2];
    assert [d1, d2][1..] == [d2];
    assert [d2][1..] == [];
    assert NonzeroProduct([d2]) == (if d2 == 0 then 1 else d2) * NonzeroProduct([]);
    assert NonzeroProduct([d1, d2]) == (if d1 == 0 then 1 else d1) * NonzeroProduct([d2]);
  }

  /** Two dims of 4-byte items pass the creation check exactly when the
      payload, 4 bytes per element, is at most MaxIntp bytes. */
  lemma WordBytesFitRank2(d0: uint32, d1: uint32)
    ensures BytesFit(4, [d0, d1]) <==> 4 * ((d0 as int) * (d1 as int)) <= MaxIntp
  {
    assert [d0, d1][1..] == [d1];
    assert [d1][1..] == [];
    var m0 := if d0 == 0 then 1 else d0;
    var m1 := if d1 == 0 then 1 else d1;
    assert NonzeroProduct([d1]) == m1 * NonzeroProduct([]);
    assert NonzeroProduct([d0, d1]) == m0 * m1;
    if d0 == 0 {
      assert m0 * m1 == m1;
    } else if d1 == 0 {
      assert m0 * m1 == m0;
    }
  }

  lemma ProductRank1(d0: uint32)
    ensures Product([d0]) == d0
  {
    assert [d0][1..] == [];
  }

  lemma ProductRank2(d0: uint32, d1: uint32)
    ensures Product([d0, d1]) == d0 * d1
  {
    assert [d0, d1][1..] == [d1];
    ProductRank1(d1);
  }

  lemma ProductRank3(d0: uint32, d1: uint32, d2: uint32)
    ensures Product([d0, d1, d2]) == d0 * (d1 * d2)
  {
    assert [d0, d1, d2][1..] == [d1, d2];
    ProductRank2(d1, d2);
  }
}
