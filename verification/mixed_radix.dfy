/**
 Mixed-radix numerals: the arithmetic behind the raster indexer of
 `OrthoStack`. A position over axis lengths `L` is a numeral whose digit `i`
 has weight (stride) `L[0] * ... * L[i-1]`; axis 0 has stride 1 and so varies
 fastest. These definitions are the reference the Java loops are proved
 against.
 */
module MixedRadix {
  import opened JavaNumerics

  /** The product of the axis lengths (1 for no axes). */
  function Product(lengths: seq<int>): int
  {
    if |lengths| == 0 then 1 else lengths[0] * Product(lengths[1..])
  }

  predicate Positive(lengths: seq<int>)
  {
    forall i :: 0 <= i < |lengths| ==> lengths[i] > 0
  }

  /** A valid position: one coordinate per axis, each inside its axis. */
  predicate InRange(pos: seq<int>, lengths: seq<int>)
  {
    && |pos| == |lengths|
    && forall i :: 0 <= i < |pos| ==> 0 <= pos[i] < lengths[i]
  }

  /**
   A numeral: one coordinate per axis, each inside its axis except the last,
   which is unbounded because decoding never reduces it.
   */
  predicate Numeral(pos: seq<int>, lengths: seq<int>)
  {
    && |pos| == |lengths|
    && forall i :: 0 <= i < |pos| - 1 ==> 0 <= pos[i] < lengths[i]
  }

  /**
   The raster index of a position, in Horner form
   `pos[0] + L[0] * (pos[1] + L[1] * (...))`. A valid position lands inside
   the flat array of `Product(lengths)` elements.
   */
  function Encode(pos: seq<int>, lengths: seq<int>): (r: int)
    requires |pos| == |lengths|
    ensures InRange(pos, lengths) ==> 0 <= r < Product(lengths)
  {
    if |pos| == 0 then 0
    else
      var rest := Encode(pos[1..], lengths[1..]);
      assert InRange(pos, lengths) ==> InRange(pos[1..], lengths[1..]) by {
        if InRange(pos, lengths) {
          forall i | 0 <= i < |pos| - 1
            ensures 0 <= pos[1..][i] < lengths[1..][i]
          {
            assert pos[1..][i] == pos[i + 1];
          }
        }
      }
      if InRange(pos, lengths) then
        DigitBound(pos[0], lengths[0], rest, Product(lengths[1..]));
        pos[0] + lengths[0] * rest
      else
        pos[0] + lengths[0] * rest
  }

  /**
   The raster index as the sum over the axes of coordinate times stride,
   accumulated from the first axis to the last, as the Java loop does.
   */
  function StrideSum(pos: seq<int>, lengths: seq<int>): int
    requires |pos| == |lengths|
  {
    if |pos| == 0 then 0
    else
      var n := |pos| - 1;
      StrideSum(pos[..n], lengths[..n]) + pos[n] * Product(lengths[..n])
  }

  /**
   Decoding a raster index into digits: each axis but the last takes the
   remainder, the last takes whatever quotient is left.
   */
  function Decode(r: int, lengths: seq<int>): (pos: seq<int>)
    requires Positive(lengths)
    ensures Numeral(pos, lengths)
    ensures r >= 0 ==> forall i :: 0 <= i < |pos| ==> pos[i] >= 0
    decreases |lengths|
  {
    if |lengths| == 0 then []
    else if |lengths| == 1 then [r]
    else
      var tail := lengths[1..];
      PositiveTail(lengths);
      var l := lengths[0];
      var q, d := r / l, r % l;
      assert 0 <= d < l;
      assert r >= 0 ==> q >= 0;
      var rest := Decode(q, tail);
      ConsDigit(d, rest, lengths);
      [d] + rest
  }

  /** Putting an in-range, non-negative first digit in front of a numeral for the tail. */
  lemma ConsDigit(d: int, rest: seq<int>, lengths: seq<int>)
    requires |lengths| >= 1 && 0 <= d < lengths[0] && Numeral(rest, lengths[1..])
    ensures Numeral([d] + rest, lengths)
    ensures (forall i :: 0 <= i < |rest| ==> rest[i] >= 0) ==> forall i :: 0 <= i < |rest| + 1 ==> ([d] + rest)[i] >= 0
  {
    var pos := [d] + rest;
    assert forall i :: 0 <= i < |rest| ==> pos[i + 1] == rest[i] && lengths[1..][i] == lengths[i + 1];
  }

  // ---------------------------------------------------------------------
  // Arithmetic helpers, each kept small so that its proof stays cheap

  lemma Distrib(a: int, x: int, y: int)
    ensures a * (x + y) == a * x + a * y
  {
  }

  lemma MulAssoc(a: int, b: int, c: int)
    ensures (a * b) * c == a * (b * c)
  {
  }

  lemma MulMonotone(l: int, x: int, y: int)
    requires l >= 0 && x <= y
    ensures l * x <= l * y
  {
  }

  lemma MulCancelLt(l: int, x: int, y: int)
    requires l > 0 && l * x < l * y
    ensures x < y
  {
  }

  lemma DivModRecompose(r: int, l: int)
    requires l > 0
    ensures r % l + l * (r / l) == r
  {
  }

  lemma MulPositive(a: int, b: int)
    requires a > 0 && b > 0
    ensures a * b > 0
  {
  }

  lemma DigitBound(p: int, l: int, e: int, bound: int)
    requires 0 <= p < l && 0 <= e < bound
    ensures 0 <= p + l * e < l * bound
  {
    MulMonotone(l, e, bound - 1);
    Distrib(l, bound, -1);
    MulMonotone(l, 0, e);
  }

  /** Dividing twice by positive numbers is dividing once by their product. */
  lemma DivDiv(r: int, a: int, b: int)
    requires a > 0 && b > 0
    ensures (r / a) / b == r / (a * b)
  {
    var q1, r1 := r / a, r % a;
    var q2, r2 := q1 / b, q1 % b;
    assert r == a * q1 + r1;
    assert q1 == b * q2 + r2;
    Distrib(a, b * q2, r2);
    MulAssoc(a, b, q2);
    assert r == (a * b) * q2 + (a * r2 + r1);
    MulMonotone(a, r2, b - 1);
    Distrib(a, b, -1);
    MulMonotone(a, 0, r2);
    MulPositive(a, b);
    DivModUnique(r, a * b, q2, a * r2 + r1);
  }

  // ---------------------------------------------------------------------
  // Products and strides

  lemma PositiveTail(lengths: seq<int>)
    requires Positive(lengths) && |lengths| > 0
    ensures Positive(lengths[1..])
  {
    forall i | 0 <= i < |lengths| - 1 ensures lengths[1..][i] > 0 {
      assert lengths[1..][i] == lengths[i + 1];
    }
  }

  /** Appending an axis multiplies the product by its length. */
  lemma {:induction false} ProductSnoc(lengths: seq<int>, l: int)
    ensures Product(lengths + [l]) == Product(lengths) * l
  {
    if |lengths| == 0 {
      assert lengths + [l] == [l];
    } else {
      var tail := lengths[1..];
      assert (lengths + [l])[1..] == tail + [l];
      ProductSnoc(tail, l);
      MulAssoc(lengths[0], Product(tail), l);
    }
  }

  lemma {:induction false} ProductPositive(lengths: seq<int>)
    requires Positive(lengths)
    ensures Product(lengths) > 0
  {
    if |lengths| > 0 {
      PositiveTail(lengths);
      ProductPositive(lengths[1..]);
      MulPositive(lengths[0], Product(lengths[1..]));
    }
  }

  /** The stride of axis `i + 1` is the stride of axis `i` times its length. */
  lemma ProductPrefixStep(lengths: seq<int>, i: nat)
    requires i < |lengths|
    ensures Product(lengths[..i + 1]) == Product(lengths[..i]) * lengths[i]
  {
    assert lengths[..i + 1] == lengths[..i] + [lengths[i]];
    ProductSnoc(lengths[..i], lengths[i]);
  }

  /** The stride sum of the first i + 1 axes adds coordinate i times the stride of axis i. */
  lemma StrideSumStep(pos: seq<int>, lengths: seq<int>, p: int)
    requires |pos| < |lengths|
    ensures StrideSum(pos + [p], lengths[..|pos| + 1])
         == StrideSum(pos, lengths[..|pos|]) + p * Product(lengths[..|pos|])
  {
    var i := |pos|;
    var q, prefix := pos + [p], lengths[..i + 1];
    StrideSumLast(q, prefix);
    assert q[..i] == pos && q[i] == p;
    assert prefix[..i] == lengths[..i];
  }

  lemma StrideSumLast(q: seq<int>, lengths: seq<int>)
    requires |q| == |lengths| > 0
    ensures StrideSum(q, lengths)
         == StrideSum(q[..|q| - 1], lengths[..|q| - 1]) + q[|q| - 1] * Product(lengths[..|q| - 1])
  {
  }

  /** Adding an axis after the last adds its coordinate times its stride. */
  lemma {:induction false} EncodeSnoc(pos: seq<int>, lengths: seq<int>, p: int, l: int)
    requires |pos| == |lengths|
    ensures Encode(pos + [p], lengths + [l]) == Encode(pos, lengths) + p * Product(lengths)
  {
    if |pos| == 0 {
      assert pos + [p] == [p] && lengths + [l] == [l];
    } else {
      var l0 := lengths[0];
      assert (pos + [p])[1..] == pos[1..] + [p];
      assert (lengths + [l])[1..] == lengths[1..] + [l];
      EncodeSnoc(pos[1..], lengths[1..], p, l);
      var e := Encode(pos[1..], lengths[1..]);
      var s := Product(lengths[1..]);
      assert Encode(pos + [p], lengths + [l]) == pos[0] + l0 * (e + p * s);
      Distrib(l0, e, p * s);
      MulAssoc(l0, p, s);
      MulAssoc(p, l0, s);
    }
  }

  /**
   The Horner form and the stride sum agree: the raster index is
   the sum over i of pos[i] * Product(lengths[..i]).
   */
  lemma {:induction false} EncodeIsStrideSum(pos: seq<int>, lengths: seq<int>)
    requires |pos| == |lengths|
    ensures Encode(pos, lengths) == StrideSum(pos, lengths)
  {
    if |pos| > 0 {
      var n := |pos| - 1;
      EncodeIsStrideSum(pos[..n], lengths[..n]);
      EncodeSnoc(pos[..n], lengths[..n], pos[n], lengths[n]);
      assert pos[..n] + [pos[n]] == pos;
      assert lengths[..n] + [lengths[n]] == lengths;
    }
  }

  /**
   Raising coordinate `i` by one raises the raster index by the stride of
   axis `i`; for axis 0 the stride is 1.
   */
  lemma {:induction false} EncodeStep(pos: seq<int>, lengths: seq<int>, i: nat)
    requires |pos| == |lengths| && i < |pos|
    ensures Encode(pos[i := pos[i] + 1], lengths) == Encode(pos, lengths) + Product(lengths[..i])
  {
    var pos' := pos[i := pos[i] + 1];
    if i == 0 {
      assert pos'[1..] == pos[1..];
      assert Product(lengths[..0]) == 1;
    } else {
      var l0, tail := lengths[0], lengths[1..];
      assert pos'[1..] == pos[1..][i - 1 := pos[1..][i - 1] + 1];
      EncodeStep(pos[1..], tail, i - 1);
      assert lengths[..i][1..] == tail[..i - 1];
      var e := Encode(pos[1..], tail);
      var s := Product(tail[..i - 1]);
      assert Encode(pos', lengths) == pos[0] + l0 * (e + s);
      assert Product(lengths[..i]) == l0 * s;
      Distrib(l0, e, s);
    }
  }

  // ---------------------------------------------------------------------
  // Round trips

  lemma NumeralTail(pos: seq<int>, lengths: seq<int>)
    requires Numeral(pos, lengths) && |pos| > 0
    ensures Numeral(pos[1..], lengths[1..])
  {
    forall i | 0 <= i < |pos| - 2
      ensures 0 <= pos[1..][i] < lengths[1..][i]
    {
      assert pos[1..][i] == pos[i + 1];
    }
  }

  /** Decoding the raster index of a numeral gives the numeral back. */
  lemma {:induction false} DecodeEncode(pos: seq<int>, lengths: seq<int>)
    requires Positive(lengths) && Numeral(pos, lengths)
    ensures Decode(Encode(pos, lengths), lengths) == pos
  {
    if |pos| == 1 {
      assert Encode(pos, lengths) == pos[0] + lengths[0] * Encode([], []);
    } else if |pos| > 1 {
      PositiveTail(lengths);
      NumeralTail(pos, lengths);
      DecodeEncode(pos[1..], lengths[1..]);
      DecodeEncodeStep(pos, lengths);
    }
  }

  /** One step of DecodeEncode: the first digit is the remainder, the rest the quotient. */
  lemma DecodeEncodeStep(pos: seq<int>, lengths: seq<int>)
    requires Positive(lengths) && Numeral(pos, lengths) && |pos| >= 2
    requires Positive(lengths[1..])
    requires Decode(Encode(pos[1..], lengths[1..]), lengths[1..]) == pos[1..]
    ensures Decode(Encode(pos, lengths), lengths) == pos
  {
    var l, tail := lengths[0], lengths[1..];
    var e := Encode(pos[1..], tail);
    var x := Encode(pos, lengths);
    assert x == pos[0] + l * e;
    DivModUnique(x, l, e, pos[0]);
    assert Decode(x, lengths) == [pos[0]] + Decode(e, tail);
    assert [pos[0]] + pos[1..] == pos;
  }

  /**
   Encoding the decoded digits of any index gives the index back, whatever
   its size: the last axis absorbs everything the others do not.
   */
  lemma {:induction false} EncodeDecode(r: int, lengths: seq<int>)
    requires Positive(lengths) && |lengths| >= 1
    ensures Encode(Decode(r, lengths), lengths) == r
    decreases |lengths|
  {
    if |lengths| == 1 {
      assert Decode(r, lengths) == [r];
      assert Encode([r], lengths) == r + lengths[0] * Encode([], []);
    } else {
      PositiveTail(lengths);
      EncodeDecode(r / lengths[0], lengths[1..]);
      EncodeDecodeStep(r, lengths);
    }
  }

  /** One step of EncodeDecode: the first digit and the quotient recompose the index. */
  lemma EncodeDecodeStep(r: int, lengths: seq<int>)
    requires Positive(lengths) && |lengths| >= 2
    requires Encode(Decode(r / lengths[0], lengths[1..]), lengths[1..]) == r / lengths[0]
    ensures Encode(Decode(r, lengths), lengths) == r
  {
    var l, tail := lengths[0], lengths[1..];
    var q, d := r / l, r % l;
    var pos := Decode(r, lengths);
    assert pos[1..] == Decode(q, tail);
    assert pos[0] == d;
    assert Encode(pos, lengths) == d + l * q;
    DivModRecompose(r, l);
  }

  /** Distinct numerals, in particular distinct valid positions, have distinct raster indices. */
  lemma EncodeInjective(p: seq<int>, q: seq<int>, lengths: seq<int>)
    requires Positive(lengths) && Numeral(p, lengths) && Numeral(q, lengths)
    requires p != q
    ensures Encode(p, lengths) != Encode(q, lengths)
  {
    DecodeEncode(p, lengths);
    DecodeEncode(q, lengths);
  }

  /** A numeral whose index lies in [0, Product(lengths)) is a valid position. */
  /**
   A numeral of non-negative digits encoding `r` is in range exactly when `r`
   is below the product, and then exactly when its last digit is in range.
   */
  lemma NumeralInRange(pos: seq<int>, lengths: seq<int>, r: int)
    requires Positive(lengths) && Numeral(pos, lengths) && |lengths| >= 1
    requires forall i :: 0 <= i < |pos| ==> pos[i] >= 0
    requires Encode(pos, lengths) == r && r >= 0
    ensures InRange(pos, lengths) <==> r < Product(lengths)
    ensures pos[|lengths| - 1] < lengths[|lengths| - 1] <==> r < Product(lengths)
  {
    var last := |lengths| - 1;
    if pos[last] < lengths[last] {
      assert InRange(pos, lengths);
    }
    if r < Product(lengths) {
      NumeralBelowProduct(pos, lengths);
      assert 0 <= pos[last] < lengths[last];
    }
  }

  lemma {:induction false} NumeralBelowProduct(pos: seq<int>, lengths: seq<int>)
    requires Positive(lengths) && Numeral(pos, lengths)
    requires 0 <= Encode(pos, lengths) < Product(lengths)
    ensures InRange(pos, lengths)
  {
    if |pos| == 1 {
      assert Encode(pos, lengths) == pos[0] + lengths[0] * Encode([], []);
      assert Product(lengths) == lengths[0] * Product([]);
    } else if |pos| > 1 {
      var l, tail := lengths[0], lengths[1..];
      var e := Encode(pos[1..], tail);
      var bound := Product(tail);
      assert Encode(pos, lengths) == pos[0] + l * e;
      assert Product(lengths) == l * bound;
      MulCancelLt(l, e, bound);
      MulCancelLt(l, -1, e);
      PositiveTail(lengths);
      NumeralTail(pos, lengths);
      NumeralBelowProduct(pos[1..], tail);
      forall i | 1 <= i < |pos|
        ensures 0 <= pos[i] < lengths[i]
      {
        assert pos[i] == pos[1..][i - 1];
      }
    }
  }

  /**
   A non-negative index decodes to a valid position exactly when it is below
   Product(lengths): the last coordinate, never reduced, overshoots its axis
   precisely for the indices past the end.
   */
  lemma DecodeInRange(r: int, lengths: seq<int>)
    requires Positive(lengths) && |lengths| >= 1 && r >= 0
    ensures InRange(Decode(r, lengths), lengths) <==> r < Product(lengths)
    ensures Decode(r, lengths)[|lengths| - 1] < lengths[|lengths| - 1] <==> r < Product(lengths)
  {
    EncodeDecode(r, lengths);
    NumeralInRange(Decode(r, lengths), lengths, r);
  }

  /**
   The digits of the decoding in closed form: coordinate i is
   (r / stride_i) % lengths[i], except the last, which is r / stride_last.
   */
  lemma {:induction false} DecodeDigits(r: int, lengths: seq<int>, i: nat)
    requires Positive(lengths) && i < |lengths|
    ensures Product(lengths[..i]) > 0
    ensures i < |lengths| - 1 ==> Decode(r, lengths)[i] == (r / Product(lengths[..i])) % lengths[i]
    ensures i == |lengths| - 1 ==> Decode(r, lengths)[i] == r / Product(lengths[..i])
    decreases i
  {
    if i == 0 {
      assert Product(lengths[..0]) == 1;
    } else {
      var l, tail := lengths[0], lengths[1..];
      PositiveTail(lengths);
      DecodeDigits(r / l, tail, i - 1);
      assert Decode(r, lengths)[i] == Decode(r / l, tail)[i - 1];
      assert lengths[..i][1..] == tail[..i - 1];
      var s := Product(tail[..i - 1]);
      assert Product(lengths[..i]) == l * s;
      MulPositive(l, s);
      DivDiv(r, l, s);
      assert tail[i - 1] == lengths[i];
    }
  }
}
