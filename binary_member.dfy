/** A mutable byte cell of fixed capacity (src/BinaryMember.js). */
module BinaryMembers {
  import opened Errors
  import opened Config
  import opened Utility

  /** A member width; padding a value of that length keeps it within JavaScript's int32 range. */
  type Capacity = n: nat | n + BinaryAlignment <= Int32Limit

  lemma AlignmentIsPowerOfTwo()
    ensures IsPowerOfTwo(BinaryAlignment)
  {
  }

  /**
   * BinaryMember(size): maxSize is fixed at construction; value is the stored
   * byte sequence, which set replaces and get and size read.
   */
  class BinaryMember {
    const maxSize: Capacity
    var value: seq<byte>

    /** A new member holds size zero bytes. */
    constructor (size: Capacity := 0)
      ensures maxSize == size && value == Zeros(size)
    {
      maxSize := size;
      value := Zeros(size);
    }

    /**
     * set(v): refuses a value longer than maxSize and leaves the member as it
     * was; otherwise stores v padded with zeros to the alignment. The check uses
     * the unpadded length, so the stored value may be longer than maxSize.
     */
    method Set(v: seq<byte>) returns (r: Outcome)
      modifies this
      ensures r.Pass? <==> |v| <= maxSize
      ensures r.Fail? ==> r.error == ValueExceedsMaximumSize(maxSize) && value == old(value)
      ensures r.Pass? ==> value == AddAlignmentPadding(v, BinaryAlignment)
      ensures r.Pass? ==> Size() % BinaryAlignment == 0 && |v| <= Size() < |v| + BinaryAlignment
    {
      if |v| > maxSize {
        return Fail(ValueExceedsMaximumSize(maxSize));
      }
      AlignmentIsPowerOfTwo();
      value := AddAlignmentPadding(v, BinaryAlignment);
      return Pass;
    }

    /** get(): the stored value, provided its length is aligned. */
    function Get(): (r: Result<seq<byte>>)
      reads this
      ensures r.Ok? <==> |value| % BinaryAlignment == 0
      ensures r.Ok? ==> r.value == value
      ensures r.Err? ==> r.error == BufferNotAligned(BinaryAlignment)
    {
      match VerifyAlignment(value, BinaryAlignment)
      case Fail(e) => Err(e)
      case Pass => Ok(value)
    }

    /** size(): the length of the stored value, not maxSize. */
    function Size(): nat
      reads this
    {
      |value|
    }
  }

  /** An accepted write reads back as the written bytes padded with zeros, and never fails. */
  method SetThenGet(m: BinaryMember, v: seq<byte>) returns (r: Result<seq<byte>>)
    requires |v| <= m.maxSize
    modifies m
    ensures r.Ok? && |v| <= |r.value| < |v| + BinaryAlignment && |r.value| % BinaryAlignment == 0
    ensures r.Ok? ==> r.value[..|v|] == v
    ensures forall i | |v| <= i < |r.value| :: r.value[i] == 0
  {
    var o := m.Set(v);
    r := m.Get();
  }

  /**
   * The capacity check sees the unpadded length: a two-byte member accepts a
   * one-byte value and then holds four bytes, more than its capacity.
   */
  method PaddedSizeExceedsCapacity() returns (m: BinaryMember, r: Outcome)
    ensures r.Pass? && m.maxSize == 2 && m.Size() == 4 && m.Size() > m.maxSize
  {
    m := new BinaryMember(2);
    r := m.Set([1]);
    AlignIsLeastMultiple(1, BinaryAlignment);
  }
}
