/** The managed frame (DriverStationRtcFrame.cs): row-by-row copies into destinations with a stride of their own. */
module FrameCopies {
  import opened Wrappers
  import opened FrameConversion
  import opened LatestFrameStores

  /** The exceptions of the managed frame. */
  datatype Fault = Disposed | OutOfRange | Overflow | TooSmall

  predicate IsInt(x: int) {
    -INT_LIMIT <= x < INT_LIMIT
  }

  /** `checked((int)x)` and `checked(a * b)`. */
  function Checked(x: int): Result<int, Fault> {
    if IsInt(x) then Ok(x) else Err(Overflow)
  }

  /** `ValidateDestination`. */
  function ValidateDestination(destinationStride: int, height: nat, sourceStride: nat, destinationLength: nat): Option<Fault> {
    if destinationStride < sourceStride then Some(OutOfRange)
    else if !IsInt(destinationStride * height) then Some(Overflow)
    else if destinationLength < destinationStride * height then Some(TooSmall)
    else None
  }

  /**
    The validation refuses exactly a stride shorter than the rows, then a length that does not fit in an `int`, then a
    destination that is shorter than that; an equal stride and an equal length are enough.
    */
  lemma ValidatesExactly(destinationStride: int, height: nat, sourceStride: nat, destinationLength: nat)
    ensures var fault, needed := ValidateDestination(destinationStride, height, sourceStride, destinationLength), destinationStride * height;
      && (fault == Some(OutOfRange) <==> destinationStride < sourceStride)
      && (fault == Some(Overflow) <==> destinationStride >= sourceStride && needed > 2147483647)
      && (fault == Some(TooSmall) <==> destinationStride >= sourceStride && needed <= 2147483647 && needed > destinationLength)
      && (fault == None <==> destinationStride >= sourceStride && needed <= 2147483647 && needed <= destinationLength)
  {
    if destinationStride >= sourceStride {
      InRowProduct(destinationStride, height);
    }
  }

  lemma InRowProduct(stride: nat, height: nat)
    ensures stride * height >= 0
  {
  }

  /** Byte `i` of the destination after the first `rows` rows of `source` have been copied over `before`. */
  function CopiedByte(source: seq<byte>, sourceStride: nat, rows: nat, destinationStride: nat, before: seq<byte>, i: nat): byte
    requires sourceStride * rows <= |source| && sourceStride <= destinationStride && i < |before|
  {
    if destinationStride == 0 || i / destinationStride >= rows || i % destinationStride >= sourceStride then before[i]
    else
      InRow(sourceStride, rows, i / destinationStride, i % destinationStride);
      source[i / destinationStride * sourceStride + i % destinationStride]
  }

  lemma InRow(stride: nat, height: nat, r: nat, q: nat)
    requires r < height && q < stride
    ensures 0 <= r * stride && r * stride + q < stride * height
  {
    assert (r + 1) * stride <= height * stride;
  }

  /** A copy with a stride: every row in its place, padding and what lies behind the rows as before. */
  function Copied(source: seq<byte>, sourceStride: nat, rows: nat, destinationStride: nat, before: seq<byte>): (after: seq<byte>)
    requires sourceStride * rows <= |source| && sourceStride <= destinationStride
    ensures |after| == |before|
  {
    seq(|before|, i requires 0 <= i < |before| => CopiedByte(source, sourceStride, rows, destinationStride, before, i))
  }

  /** Byte `q` of row `r` arrives at byte `q` of row `r`. */
  lemma CopiedAt(source: seq<byte>, sourceStride: nat, rows: nat, destinationStride: nat, before: seq<byte>, r: nat, q: nat)
    requires sourceStride * rows <= |source| && sourceStride <= destinationStride
    requires destinationStride * rows <= |before| && r < rows && q < destinationStride
    ensures 0 <= r * destinationStride && r * destinationStride + q < |before|
    ensures q < sourceStride ==> 0 <= r * sourceStride && r * sourceStride + q < |source|
    ensures var i := r * destinationStride + q;
      Copied(source, sourceStride, rows, destinationStride, before)[i] ==
      if q < sourceStride then source[r * sourceStride + q] else before[i]
  {
    InRow(destinationStride, rows, r, q);
    DivModUnique(r * destinationStride + q, destinationStride, r, q);
    if q < sourceStride {
      InRow(sourceStride, rows, r, q);
    }
  }

  /** What lies behind the last row is as before. */
  lemma CopiedBehind(source: seq<byte>, sourceStride: nat, rows: nat, destinationStride: nat, before: seq<byte>, i: nat)
    requires sourceStride * rows <= |source| && sourceStride <= destinationStride
    requires destinationStride * rows <= i < |before|
    ensures Copied(source, sourceStride, rows, destinationStride, before)[i] == before[i]
  {
    if destinationStride != 0 && i / destinationStride < rows {
      InRow(destinationStride, rows, i / destinationStride, i % destinationStride);
    }
  }

  /** One more row changes exactly the bytes of that row. */
  lemma CopiedNext(source: seq<byte>, sourceStride: nat, rows: nat, destinationStride: nat, before: seq<byte>, i: nat)
    requires sourceStride * rows + sourceStride == sourceStride * (rows + 1) <= |source| && sourceStride <= destinationStride
    requires i < |before|
    ensures var to := rows * destinationStride;
      CopiedByte(source, sourceStride, rows + 1, destinationStride, before, i) ==
      if to <= i < to + sourceStride then source[sourceStride * rows + (i - to)]
      else CopiedByte(source, sourceStride, rows, destinationStride, before, i)
  {
    if destinationStride != 0 {
      var r, q := i / destinationStride, i % destinationStride;
      var to := rows * destinationStride;
      if to <= i < to + sourceStride {
        DivModUnique(i, destinationStride, rows, i - to);
      } else if r == rows {
        assert i == r * destinationStride + q;
      }
    }
  }

  class DriverStationRtcFrame {
    const native: NativeFrame
    var disposed: bool

    constructor ()
      ensures !disposed && fresh(native) && native.Cleared() && native.data == null && native.capacity == 0
    {
      native := new NativeFrame();
      disposed := false;
    }

    /** The native structure describes rows without padding, as every copy from the mailbox leaves it. */
    predicate Shaped()
      reads this, native, native.data
    {
      native.Shaped()
    }

    function Pixels(): seq<byte>
      reads this, native, native.data
      requires Shaped()
    {
      if native.length == 0 then [] else native.data[..native.length]
    }

    /** What the strided copies refuse before they copy anything. */
    function Refusal(destinationStride: int, destinationLength: nat): Option<Fault>
      reads this, native
    {
      if disposed then Some(Disposed)
      else if !IsInt(native.height) || !IsInt(native.stride) then Some(Overflow)
      else ValidateDestination(destinationStride, native.height, native.stride, destinationLength)
    }

    /**
      `CopyTo(Span<byte>, int)`. Behind the validation no product overflows and no slice is out of range. On success
      the rows are in place and every other byte is as before; a refused copy writes nothing.
      */
    method CopyToSpan(destination: array<byte>, destinationStride: int) returns (fault: Option<Fault>)
      requires Shaped() && destination != native.data
      modifies destination
      ensures fault == Refusal(destinationStride, destination.Length)
      ensures fault.None? <==>
        && !disposed && native.height <= 2147483647 && native.stride <= 2147483647
        && native.stride <= destinationStride && destinationStride * native.height <= 2147483647
        && destinationStride * native.height <= destination.Length
      ensures fault.Some? ==> destination[..] == old(destination[..])
      ensures fault.None? ==>
        destination[..] == Copied(Pixels(), native.stride, native.height, destinationStride, old(destination[..]))
    {
      if disposed {
        return Some(Disposed);
      }
      var height, sourceStride := Checked(native.height), Checked(native.stride);
      if height.Err? || sourceStride.Err? {
        return Some(Overflow);
      }
      fault := ValidateDestination(destinationStride, native.height, native.stride, destination.Length);
      if fault.Some? {
        return;
      }
      fault := CopyRows(destination, destinationStride);
    }

    /**
      `CopyTo(nint, int)`, with the memory at the address, or none for a null pointer. The caller promises that the
      destination has as many bytes as the stride and the height say.
      */
    method CopyToAddress(destination: array?<byte>, destinationStride: int) returns (fault: Option<Fault>)
      requires Shaped() && (destination != null ==> destination != native.data)
      requires destination != null && destinationStride >= 0 ==> destinationStride * native.height <= destination.Length
      modifies destination
      ensures fault == if disposed || !IsInt(native.height) || !IsInt(native.stride) then Refusal(0, 0)
                       else if native.height == 0 then None
                       else if destination == null then Some(OutOfRange)
                       else Refusal(destinationStride, INT_LIMIT - 1)
      ensures destination != null && (fault.Some? || native.height == 0) ==> destination[..] == old(destination[..])
      ensures fault.None? && native.height != 0 ==>
        && destination != null && native.stride <= destinationStride
        && destination[..] == Copied(Pixels(), native.stride, native.height, destinationStride, old(destination[..]))
    {
      if disposed {
        return Some(Disposed);
      }
      var height, sourceStride := Checked(native.height), Checked(native.stride);
      if height.Err? || sourceStride.Err? {
        return Some(Overflow);
      }
      if native.height == 0 {
        return None;
      }
      if destination == null {
        return Some(OutOfRange);
      }
      fault := ValidateDestination(destinationStride, native.height, native.stride, INT_LIMIT - 1);
      if fault.Some? {
        return;
      }
      fault := CopyRows(destination, destinationStride);
    }

    /**
      The loop over the rows, which both copies share: products are checked, and so is every slice. Here none of the
      checks fails.
      */
    method CopyRows(destination: array<byte>, destinationStride: int) returns (fault: Option<Fault>)
      requires Shaped() && destination != native.data && IsInt(native.height) && IsInt(native.stride)
      requires native.stride <= destinationStride && destinationStride * native.height <= destination.Length
      requires IsInt(destinationStride * native.height)
      modifies destination
      ensures fault.None?
      ensures destination[..] == Copied(Pixels(), native.stride, native.height, destinationStride, old(destination[..]))
    {
      hide CopiedByte;
      var source, stride := Pixels(), native.stride;
      ghost var before := destination[..];
      var row := 0;
      NothingCopied(source, stride, destinationStride, before);
      while row < native.height
        invariant 0 <= row <= native.height && stride * row <= |source|
        invariant destination[..] == Copied(source, stride, row, destinationStride, before)
      {
        InBounds(row, native.height, stride, destinationStride);
        var from, to := Checked(row * stride), Checked(row * destinationStride);
        if from.Err? || to.Err? {
          return Some(Overflow);
        }
        if from.value + stride > |source| || to.value + stride > destination.Length {
          return Some(OutOfRange);
        }
        CopyRow(source, from.value, destination, to.value, stride);
        forall i | 0 <= i < |before|
          ensures destination[i] == CopiedByte(source, stride, row + 1, destinationStride, before, i)
        {
          CopiedNext(source, stride, row, destinationStride, before, i);
        }
        row := row + 1;
      }
      fault := None;
    }

    /** `Dispose` frees the native buffer the first time, and does nothing afterwards. */
    method Dispose() returns (freed: bool)
      modifies this`disposed, native
      ensures disposed
      ensures freed <==> !old(disposed) && old(native.data) != null
      ensures freed ==> native.data == null && native.capacity == 0 && native.Cleared()
      ensures !freed ==> unchanged(native)
    {
      freed := false;
      if !disposed {
        disposed := true;
        if native.data != null {
          ReleaseFrame(native);
          freed := true;
        }
      }
    }
  }

  lemma NothingCopied(source: seq<byte>, sourceStride: nat, destinationStride: nat, before: seq<byte>)
    requires sourceStride <= destinationStride
    ensures sourceStride * 0 <= |source| && Copied(source, sourceStride, 0, destinationStride, before) == before
  {
  }

  /** Rows within the height begin and end within the buffers, and their offsets are no larger than the last product. */
  lemma InBounds(row: nat, height: nat, stride: nat, destinationStride: nat)
    requires row < height && stride <= destinationStride
    ensures row * stride == stride * row && 0 <= row * stride <= row * destinationStride
    ensures stride * row + stride == stride * (row + 1) <= stride * height
    ensures row * destinationStride + destinationStride <= destinationStride * height
  {
    assert (row + 1) * stride <= height * stride;
    assert (row + 1) * destinationStride <= height * destinationStride;
  }

  /** One slice copied onto another. */
  method CopyRow(source: seq<byte>, from: nat, destination: array<byte>, to: nat, count: nat)
    requires from + count <= |source| && to + count <= destination.Length
    modifies destination
    ensures forall i | 0 <= i < destination.Length ::
      destination[i] == if to <= i < to + count then source[from + (i - to)] else old(destination[i])
  {
    forall i | 0 <= i < count {
      destination[to + i] := source[from + i];
    }
  }
}
