/**
 The raster indexer of the OrthoStack plugin: `positionToRaster` and the two
 `rasterToPosition` overloads, written as the Java loops they are, with the
 exceptions those loops can throw returned as `Failure`s, and the 1-based
 plane numbers the plugin derives from them.
 */
module OrthoStack {
  import opened JavaNumerics
  import opened MixedRadix

  /** The Java exceptions the indexer can throw. */
  datatype Fault =
    | IndexOutOfBounds  // reading `lengths[i]` past the end of `lengths`
    | DivideByZero      // `r % nextOffset` when an axis length is zero

  datatype Result<T> = Success(value: T) | Failure(fault: Fault)

  /** One of the first n - 1 axis lengths (those used as a `%` divisor) is zero. */
  predicate HitsZeroLength(n: nat, lengths: seq<int>)
  {
    exists j :: 0 <= j < n - 1 && j < |lengths| && lengths[j] == 0
  }

  /**
   `positionToRaster(pos, lengths)`: sums `offset * pos[i]` over the axes of
   `pos`, multiplying `offset` by `lengths[i]` after each. Axes of `lengths`
   beyond `|pos|` are ignored; fewer lengths than coordinates throws.
   */
  method PositionToRaster(pos: seq<int>, lengths: seq<int>) returns (res: Result<int>)
    ensures res.Failure? <==> |pos| > |lengths|
    ensures res.Failure? ==> res.fault == IndexOutOfBounds
    ensures res.Success? ==> res.value == StrideSum(pos, lengths[..|pos|])
    ensures res.Success? ==> res.value == Encode(pos, lengths[..|pos|])
  {
    var offset := 1;
    var raster := 0;
    var i := 0;
    while i < |pos|
      invariant i <= |pos| && i <= |lengths|
      invariant offset == Product(lengths[..i])
      invariant raster == StrideSum(pos[..i], lengths[..i])
    {
      raster := raster + offset * pos[i];
      if i >= |lengths| {
        return Failure(IndexOutOfBounds);
      }
      StrideSumStep(pos[..i], lengths, pos[i]);
      assert pos[..i] + [pos[i]] == pos[..i + 1];
      ProductPrefixStep(lengths, i);
      offset := offset * lengths[i];
      i := i + 1;
    }
    assert pos[..i] == pos;
    EncodeIsStrideSum(pos, lengths[..|pos|]);
    return Success(raster);
  }

  /**
   The three-argument `rasterToPosition(pos, raster, lengths)` on a
   preallocated array of n coordinates. Axis i takes `q = r % (offset *
   lengths[i])`, or all of `r` on the last axis, stores `q / offset` and
   removes `q` from `r`. Decoding then re-encoding gives back any raster
   whatsoever, because the last axis is never reduced.
   */
  method RasterToPositionN(n: nat, raster: int, lengths: seq<int>) returns (res: Result<seq<int>>)
    ensures res == Failure(DivideByZero) <==> HitsZeroLength(n, lengths)
    ensures res == Failure(IndexOutOfBounds) <==> !HitsZeroLength(n, lengths) && n > |lengths|
    ensures res.Success? ==> n <= |lengths| && |res.value| == n
    ensures res.Success? && n > 0 ==> StrideSum(res.value, lengths[..n]) == raster
    ensures res.Success? && raster >= 0 && Positive(lengths[..n]) ==> res.value == Decode(raster, lengths[..n])
  {
    var offset := 1;
    var r := raster;
    var pos: seq<int> := [];
    ghost var k := raster;
    ghost var valid := n <= |lengths| && raster >= 0 && Positive(lengths[..n]);
    var i := 0;
    while i < n
      invariant i <= n && i <= |lengths| && |pos| == i
      invariant forall j :: 0 <= j < i && j < n - 1 ==> lengths[j] != 0
      invariant i < n ==> offset != 0
      invariant offset == Product(lengths[..i])
      invariant r == k * offset
      invariant StrideSum(pos, lengths[..i]) + r == raster
      invariant i == n && n > 0 ==> r == 0
      invariant valid ==> r >= 0 && (i < n ==> offset > 0)
      invariant valid ==> forall j :: 0 <= j < i && j < n - 1 ==> 0 <= pos[j] < lengths[j]
    {
      if i >= |lengths| {
        return Failure(IndexOutOfBounds);
      }
      var nextOffset := offset * lengths[i];
      if i < n - 1 && nextOffset == 0 {
        MulZero(offset, lengths[i]);
        return Failure(DivideByZero);
      }
      var digit, rest;
      digit, rest, k := DecodeAxis(r, offset, lengths[i], i == n - 1, k);
      if valid {
        assert lengths[..n][i] == lengths[i];
      }
      StrideSumStep(pos, lengths, digit);
      ProductPrefixStep(lengths, i);
      pos := pos + [digit];
      r := rest;
      offset := nextOffset;
      i := i + 1;
    }
    if valid {
      assert Numeral(pos, lengths[..n]);
      NumeralDecodes(pos, lengths[..n], raster);
    }
    return Success(pos);
  }

  /**
   The two-argument `rasterToPosition(raster, lengths)`: decodes into a fresh
   array with one coordinate per axis of `lengths`.
   */
  method RasterToPosition(raster: int, lengths: seq<int>) returns (res: Result<seq<int>>)
    ensures res.Failure? <==> HitsZeroLength(|lengths|, lengths)
    ensures res.Failure? ==> res.fault == DivideByZero
    ensures res.Success? ==> |res.value| == |lengths|
    ensures res.Success? && |lengths| > 0 ==> StrideSum(res.value, lengths) == raster
    ensures res.Success? && raster >= 0 && Positive(lengths) ==> res.value == Decode(raster, lengths)
  {
    assert lengths[..|lengths|] == lengths;
    res := RasterToPositionN(|lengths|, raster, lengths);
    if res.Failure? {
      assert res.fault != IndexOutOfBounds;
      assert res == Failure(DivideByZero);
    }
  }

  /**
   The three-argument overload on the caller's array: on success every
   element of `pos` is overwritten with the decoded coordinates and the very
   same array is returned.
   */
  method RasterToPositionInto(pos: array<int>, raster: int, lengths: seq<int>) returns (res: Result<array<int>>)
    modifies pos
    ensures res == Failure(DivideByZero) <==> HitsZeroLength(pos.Length, lengths)
    ensures res == Failure(IndexOutOfBounds) <==> !HitsZeroLength(pos.Length, lengths) && pos.Length > |lengths|
    ensures res.Success? ==> res.value == pos && pos.Length <= |lengths|
    ensures res.Success? && pos.Length > 0 ==> StrideSum(pos[..], lengths[..pos.Length]) == raster
    ensures res.Success? && raster >= 0 && Positive(lengths[..pos.Length]) ==> pos[..] == Decode(raster, lengths[..pos.Length])
  {
    var decoded := RasterToPositionN(pos.Length, raster, lengths);
    match decoded
    case Failure(f) =>
      return Failure(f);
    case Success(p) =>
      forall j | 0 <= j < pos.Length {
        pos[j] := p[j];
      }
      assert pos[..] == p;
      return Success(pos);
  }

  /**
   Encoding a position that lies within positive lengths and decoding the
   raster gives the position back.
   */
  method PositionRoundTrip(pos: seq<int>, lengths: seq<int>) returns (back: Result<seq<int>>)
    requires Positive(lengths) && InRange(pos, lengths)
    ensures back == Success(pos)
  {
    var raster := PositionToRaster(pos, lengths);
    assert lengths[..|pos|] == lengths;
    assert !HitsZeroLength(|lengths|, lengths);
    back := RasterToPosition(raster.value, lengths);
    DecodeEncode(pos, lengths);
  }

  /**
   Decoding any int whatsoever against at least one axis (with no zero
   length where one would be a divisor) and encoding the coordinates gives
   the raster back: the last axis absorbs whatever the others do not.
   */
  method RasterRoundTrip(raster: int, lengths: seq<int>) returns (back: Result<int>)
    requires |lengths| >= 1 && !HitsZeroLength(|lengths|, lengths)
    ensures back == Success(raster)
  {
    var pos := RasterToPosition(raster, lengths);
    back := PositionToRaster(pos.value, lengths);
    assert lengths[..|pos.value|] == lengths;
  }

  /**
   The 1-based stack plane numbers the plugin fetches for one channel and one
   frame (both 1-based, as ImageJ reports them): for each slice z in turn,
   `positionToRaster({channel - 1, z, frame - 1}, {sizeC, sizeZ, sizeT}) + 1`.
   */
  method SlicePlanes(channel: int, frame: int, sizeC: int, sizeZ: int, sizeT: int) returns (planes: seq<int>)
    requires 1 <= channel <= sizeC && 1 <= frame <= sizeT && sizeZ >= 0
    ensures |planes| == sizeZ
    ensures forall z :: 0 <= z < sizeZ ==> 1 <= planes[z] <= sizeC * sizeZ * sizeT
    ensures forall z :: 0 <= z < sizeZ - 1 ==> planes[z + 1] == planes[z] + sizeC
    ensures forall z :: 0 <= z < sizeZ ==>
      planes[z] == Encode([channel - 1, z, frame - 1], [sizeC, sizeZ, sizeT]) + 1
  {
    var lengths := [sizeC, sizeZ, sizeT];
    var pos := [channel - 1, 0, frame - 1];
    planes := [];
    var z := 0;
    while z < sizeZ
      invariant 0 <= z <= sizeZ && |planes| == z
      invariant |pos| == 3 && pos[0] == channel - 1 && pos[2] == frame - 1
      invariant forall w :: 0 <= w < z ==> planes[w] == Encode([channel - 1, w, frame - 1], lengths) + 1
    {
      pos := pos[1 := z];
      var raster := PositionToRaster(pos, lengths);
      assert lengths[..|pos|] == lengths;
      assert pos == [channel - 1, z, frame - 1];
      planes := planes + [raster.value + 1];
      z := z + 1;
    }
    forall z | 0 <= z < sizeZ
      ensures 1 <= planes[z] <= sizeC * sizeZ * sizeT
    {
      PlaneInStack(channel, z, frame, sizeC, sizeZ, sizeT);
    }
    forall z | 0 <= z < sizeZ - 1
      ensures planes[z + 1] == planes[z] + sizeC
    {
      NextSlice(channel, z, frame, sizeC, sizeZ, sizeT);
    }
  }

  /** A numeral whose stride sum is `raster` is what decoding `raster` gives. */
  lemma NumeralDecodes(pos: seq<int>, lengths: seq<int>, raster: int)
    requires Positive(lengths) && Numeral(pos, lengths)
    requires |pos| > 0 ==> StrideSum(pos, lengths) == raster
    ensures pos == Decode(raster, lengths)
  {
    if |pos| > 0 {
      EncodeIsStrideSum(pos, lengths);
    }
    DecodeEncode(pos, lengths);
  }

  /**
   A hyperstack of 2 channels, 3 slices and 4 frames has strides 1, 2 and 6:
   raster 17 is channel 1, slice 2, frame 2, and encodes back to 17.
   */
  method HyperstackExample() returns (pos: Result<seq<int>>, raster: Result<int>)
    ensures pos == Success([1, 2, 2])
    ensures raster == Success(17)
  {
    pos := RasterToPosition(17, [2, 3, 4]);
    HyperstackDigits();
    raster := PositionToRaster(pos.value, [2, 3, 4]);
    assert [2, 3, 4][..3] == [2, 3, 4];
  }

  /** The digits of 17 against lengths 2, 3 and 4, one axis at a time. */
  lemma HyperstackDigits()
    ensures Decode(17, [2, 3, 4]) == [1, 2, 2]
  {
    assert [2, 3, 4][1..] == [3, 4];
    assert [3, 4][1..] == [4];
    assert Decode(2, [4]) == [2];
    assert 8 / 3 == 2 && 8 % 3 == 2;
    assert Decode(8, [3, 4]) == [2] + Decode(2, [4]);
    assert 17 / 2 == 8 && 17 % 2 == 1;
    assert Decode(17, [2, 3, 4]) == [1] + Decode(8, [3, 4]);
  }

  /** The product of the three hyperstack lengths, as the plugin multiplies them. */
  /** A 1-based plane number lies between 1 and the number of planes in the stack. */
  lemma PlaneInStack(channel: int, z: int, frame: int, sizeC: int, sizeZ: int, sizeT: int)
    requires 1 <= channel <= sizeC && 0 <= z < sizeZ && 1 <= frame <= sizeT
    ensures 1 <= Encode([channel - 1, z, frame - 1], [sizeC, sizeZ, sizeT]) + 1 <= sizeC * sizeZ * sizeT
  {
    assert InRange([channel - 1, z, frame - 1], [sizeC, sizeZ, sizeT]);
    PlaneProduct(sizeC, sizeZ, sizeT);
  }

  /** The next focal slice of the same channel and frame is `sizeC` planes further on. */
  lemma NextSlice(channel: int, z: int, frame: int, sizeC: int, sizeZ: int, sizeT: int)
    requires 1 <= channel <= sizeC && 0 <= z < sizeZ - 1 && 1 <= frame <= sizeT
    ensures Encode([channel - 1, z + 1, frame - 1], [sizeC, sizeZ, sizeT])
      == Encode([channel - 1, z, frame - 1], [sizeC, sizeZ, sizeT]) + sizeC
  {
    var lengths := [sizeC, sizeZ, sizeT];
    EncodeStep([channel - 1, z, frame - 1], lengths, 1);
    assert [channel - 1, z, frame - 1][1 := z + 1] == [channel - 1, z + 1, frame - 1];
    assert Product(lengths[..1]) == sizeC by {
      assert lengths[..1] == [sizeC];
      assert Product([sizeC][1..]) == 1;
    }
  }

  lemma PlaneProduct(c: int, z: int, t: int)
    ensures Product([c, z, t]) == c * z * t
  {
    assert [c, z, t][1..] == [z, t];
    assert [z, t][1..] == [t];
    assert [t][1..] == [];
    assert Product([t]) == t;
    assert Product([z, t]) == z * t;
    MulAssoc(c, z, t);
  }

  /**
   The body of the decoding loop for one axis: `q` is `r % nextOffset`, or all
   of `r` on the last axis; the coordinate is `q / offset`, and `r - q` is
   what the later axes decode. `k` is the multiple of `offset` that `r` is.
   */
  method DecodeAxis(r: int, offset: int, l: int, last: bool, ghost k: int)
    returns (digit: int, rest: int, ghost k': int)
    requires offset != 0 && r == k * offset
    requires !last ==> offset * l != 0
    ensures digit * offset + rest == r
    ensures rest == k' * (offset * l)
    ensures last ==> rest == 0
    ensures r >= 0 && offset > 0 && l > 0 ==> rest >= 0 && (!last ==> 0 <= digit < l)
  {
    var nextOffset := offset * l;
    var q := if !last then Rem(r, nextOffset) else r;
    digit := Quot(q, offset);
    rest := r - q;
    if !last {
      ReduceStep(r, k, offset, l);
      k' := Quot(r, nextOffset);
      if r >= 0 && offset > 0 && l > 0 {
        ReduceStepBounds(r, offset, l);
      }
    } else {
      QuotOfMultiple(k, offset);
      k' := 0;
    }
  }

  /** A product of two integers is zero only if one of them is. */
  lemma MulZero(a: int, b: int)
    requires a != 0 && a * b == 0
    ensures b == 0
  {
  }

  /**
   One reducing step of the decoding loop: when `r` and the divisor are both
   multiples of `offset`, the remainder is an exact multiple of `offset`, and
   what is left of `r` is a multiple of the next offset.
   */
  lemma ReduceStep(r: int, k: int, offset: int, l: int)
    requires offset != 0 && offset * l != 0 && r == k * offset
    ensures Quot(Rem(r, offset * l), offset) * offset == Rem(r, offset * l)
    ensures r - Rem(r, offset * l) == Quot(r, offset * l) * (offset * l)
  {
    var next := offset * l;
    var c := Quot(r, next);
    var m := k - c * l;
    MultipleLeft(r, k, offset, l, c);
    QuotOfMultiple(m, offset);
  }

  /** Taking `c` whole multiples of `offset * l` from a multiple of `offset` leaves one. */
  lemma MultipleLeft(r: int, k: int, offset: int, l: int, c: int)
    requires r == k * offset
    ensures r - c * (offset * l) == (k - c * l) * offset
  {
    assert c * (offset * l) == (c * l) * offset by {
      MulAssoc(c, offset, l);
    }
    MulSubRight(k, c * l, offset);
  }

  lemma MulSubRight(a: int, b: int, c: int)
    ensures (a - b) * c == a * c - b * c
  {
  }

  /**
   With a non-negative `r` and positive lengths the digit a reducing step
   stores lies in `[0, l)` and what is left of `r` stays non-negative.
   */
  lemma ReduceStepBounds(r: int, offset: int, l: int)
    requires r >= 0 && offset > 0 && l > 0
    requires Quot(Rem(r, offset * l), offset) * offset == Rem(r, offset * l)
    ensures 0 <= Quot(Rem(r, offset * l), offset) < l
    ensures r - Rem(r, offset * l) >= 0
  {
    var next := offset * l;
    MulPositive(offset, l);
    QuotRemNonNegative(r, next);
    var q := Rem(r, next);
    var d := Quot(q, offset);
    assert 0 <= q < next;
    assert offset * d < offset * l;
    MulCancelLt(offset, d, l);
    assert offset * -1 < offset * d;
    MulCancelLt(offset, -1, d);
    RemainderBelow(r, next);
  }

  lemma RemainderBelow(r: int, b: int)
    requires r >= 0 && b > 0
    ensures r % b <= r
  {
    DivModRecompose(r, b);
    MulMonotone(b, 0, r / b);
  }
}
