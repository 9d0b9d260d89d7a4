/**
 The two convenience helpers of `mtl::IndirectRenderCmd` that encode an
 indexed triangle draw from two index ranges: which index elements to read,
 and which instances to draw.

 The helpers compute the arguments of the `drawIndexedPrimitives:...` message
 from the ranges; the message itself is foreign, so a call is modelled as the
 record of the arguments it receives.
 */
module IndirectCommand {
  import opened Runtime

  /** `mtl::Primitive`. */
  datatype Primitive = Point | Line | LineStrip | Triangle | TriangleStrip

  /** `mtl::IndexType`: the width of one element of the index buffer. */
  datatype IndexType = U16 | U32

  /** `size_of::<u16>()` / `size_of::<u32>()`: the bytes taken by one index. */
  function IndexSize(t: IndexType): (n: nat)
    ensures n == 2 || n == 4
  {
    match t
    case U16 => 2
    case U32 => 4
  }

  /** `std::ops::Range<usize>`: the values `start <= i < end`. */
  datatype Range = Range(start: Usize, end: Usize) {
    /** `Range::contains`. */
    predicate Contains(i: int) { start <= i < end }
  }

  /** `ExactSizeIterator::len` of a `Range<usize>`: the number of values the
      range holds; a range whose end is not after its start holds none. */
  function RangeLen(r: Range): (n: Usize)
    ensures r.start + n <= r.end || n == 0
    ensures forall i :: r.Contains(i) <==> r.start <= i < r.start + n
  {
    if r.start < r.end then r.end - r.start else 0
  }

  /** `usize` multiplication as a release build performs it: modulo 2^64. */
  function WrappingMul(a: Usize, b: Usize): (r: Usize)
    ensures a * b < USIZE_MODULUS ==> r == a * b
  {
    (a * b) % USIZE_MODULUS
  }

  /** The arguments of one `drawIndexedPrimitives:indexCount:indexType:
      indexBuffer:indexBufferOffset:instanceCount:baseVertex:baseInstance:` message. */
  datatype DrawIndexedPrimitives = DrawIndexedPrimitives(
    primitive: Primitive,
    indexCount: Usize,
    indexType: IndexType,
    indexBuffer: Handle,
    indexBufferOffset: Usize,   // in bytes
    instanceCount: Usize,
    baseVertex: int,            // an `isize`
    baseInstance: Usize)

  /** The draw both helpers encode, for the index width `t`. */
  function DrawIndexedTriangles(t: IndexType, indexBuffer: Handle, indexRange: Range, instanceRange: Range): (c: DrawIndexedPrimitives)
    ensures c.primitive == Triangle && c.indexType == t && c.baseVertex == 0
    ensures c.indexBuffer == indexBuffer
    ensures c.indexCount == RangeLen(indexRange) && c.instanceCount == RangeLen(instanceRange)
    ensures c.baseInstance == instanceRange.start
    ensures indexRange.start * IndexSize(t) < USIZE_MODULUS ==> c.indexBufferOffset == indexRange.start * IndexSize(t)
  {
    DrawIndexedPrimitives(
      Triangle,
      RangeLen(indexRange),
      t,
      indexBuffer,
      WrappingMul(indexRange.start, IndexSize(t)),
      RangeLen(instanceRange),
      0,
      instanceRange.start)
  }

  /** `IndirectRenderCmd::draw_indexed_triangles_u16`: triangles over 16-bit
      indices; the byte offset of the first index is twice its position. */
  function DrawIndexedTrianglesU16(indexBuffer: Handle, indexRange: Range, instanceRange: Range): (c: DrawIndexedPrimitives)
    ensures c.primitive == Triangle && c.indexType == U16 && c.baseVertex == 0
    ensures c.indexBuffer == indexBuffer
    ensures c.indexCount == RangeLen(indexRange)
    ensures indexRange.start < USIZE_MODULUS / 2 ==> c.indexBufferOffset == indexRange.start * 2
    ensures c.instanceCount == RangeLen(instanceRange) && c.baseInstance == instanceRange.start
  {
    DrawIndexedTriangles(U16, indexBuffer, indexRange, instanceRange)
  }

  /** `IndirectRenderCmd::draw_indexed_triangles_u32`: triangles over 32-bit
      indices; the byte offset of the first index is four times its position. */
  function DrawIndexedTrianglesU32(indexBuffer: Handle, indexRange: Range, instanceRange: Range): (c: DrawIndexedPrimitives)
    ensures c.primitive == Triangle && c.indexType == U32 && c.baseVertex == 0
    ensures c.indexBuffer == indexBuffer
    ensures c.indexCount == RangeLen(indexRange)
    ensures indexRange.start < USIZE_MODULUS / 4 ==> c.indexBufferOffset == indexRange.start * 4
    ensures c.instanceCount == RangeLen(instanceRange) && c.baseInstance == instanceRange.start
  {
    DrawIndexedTriangles(U32, indexBuffer, indexRange, instanceRange)
  }

  /** The index range a draw reads: from the element at its byte offset, as
      many elements as its count. */
  function IndexRangeOf(c: DrawIndexedPrimitives): Range
    requires c.indexBufferOffset / IndexSize(c.indexType) + c.indexCount < USIZE_MODULUS
  {
    var start := c.indexBufferOffset / IndexSize(c.indexType);
    Range(start, start + c.indexCount)
  }

  /** The instance range a draw covers. */
  function InstanceRangeOf(c: DrawIndexedPrimitives): Range
    requires c.baseInstance + c.instanceCount < USIZE_MODULUS
  {
    Range(c.baseInstance, c.baseInstance + c.instanceCount)
  }

  /** The encoded draw reads exactly the given index range and covers exactly
      the given instance range, whenever the ranges are not reversed and the
      byte offset does not overflow. */
  lemma DrawRecoversRanges(t: IndexType, indexBuffer: Handle, indexRange: Range, instanceRange: Range)
    requires indexRange.start <= indexRange.end && instanceRange.start <= instanceRange.end
    requires indexRange.start * IndexSize(t) < USIZE_MODULUS
    ensures var c := DrawIndexedTriangles(t, indexBuffer, indexRange, instanceRange);
      && c.indexBufferOffset / IndexSize(t) + c.indexCount < USIZE_MODULUS
      && c.baseInstance + c.instanceCount < USIZE_MODULUS
      && IndexRangeOf(c) == indexRange
      && InstanceRangeOf(c) == instanceRange
  {
  }

  /** Even when the multiplication wraps, the byte offset passed is a whole
      number of indices: the offset stays aligned to the index width. */
  lemma OffsetAligned(t: IndexType, indexBuffer: Handle, indexRange: Range, instanceRange: Range)
    ensures DrawIndexedTriangles(t, indexBuffer, indexRange, instanceRange).indexBufferOffset % IndexSize(t) == 0
  {
  }

  /** The two helpers differ only in the index width and the scale of the offset. */
  lemma HelpersDifferOnlyInWidth(indexBuffer: Handle, indexRange: Range, instanceRange: Range)
    requires indexRange.start < USIZE_MODULUS / 4
    ensures var a := DrawIndexedTrianglesU16(indexBuffer, indexRange, instanceRange);
            var b := DrawIndexedTrianglesU32(indexBuffer, indexRange, instanceRange);
      && b == a.(indexType := U32, indexBufferOffset := 2 * a.indexBufferOffset)
  {
  }
}
