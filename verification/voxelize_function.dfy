/** Voxelisation of a shape given by an implicit function f: each cell is
    classified from the signs of f at its 8 corners, with no flood fill. */
module VoxelizeFunction {
  import opened VoxelGrid

  /** Number of corners of a voxel. */
  const CORNERS: nat := 8

  /** A value of f as a double, as far as comparisons with 0 can tell: a
      number (an infinity compares like any number of its sign), or NaN,
      which compares false with everything. */
  datatype Sample = Num(v: real) | NaN

  predicate Positive(s: Sample) { s.Num? && s.v > 0.0 }
  predicate Negative(s: Sample) { s.Num? && s.v < 0.0 }
  predicate Zero(s: Sample) { s.Num? && s.v == 0.0 }

  predicate SomePositive(values: seq<Sample>) { exists off :: 0 <= off < |values| && Positive(values[off]) }
  predicate SomeNegative(values: seq<Sample>) { exists off :: 0 <= off < |values| && Negative(values[off]) }
  predicate SomeZero(values: seq<Sample>) { exists off :: 0 <= off < |values| && Zero(values[off]) }

  /** No corner value is NaN. */
  predicate Ordered(values: seq<Sample>) { forall off :: 0 <= off < |values| ==> values[off].Num? }

  /** Reference classification from the corner values: OUTSIDE when some
      corner is positive and none is negative or zero, INSIDE when some
      corner is negative and none is positive or zero, BOUNDARY otherwise.
      NaN corners take no part. */
  function CornerLabel(values: seq<Sample>): Label
  {
    if SomePositive(values) && !SomeNegative(values) && !SomeZero(values) then Outside
    else if !SomePositive(values) && SomeNegative(values) && !SomeZero(values) then Inside
    else Boundary
  }

  /** The sign flags accumulated over the corners decide the label. */
  method ClassifyCorners(values: seq<Sample>) returns (cellLabel: Label)
    requires |values| == CORNERS
    ensures cellLabel == CornerLabel(values)
    ensures Ordered(values) ==> (cellLabel == Outside <==> forall off :: 0 <= off < CORNERS ==> Positive(values[off]))
    ensures Ordered(values) ==> (cellLabel == Inside <==> forall off :: 0 <= off < CORNERS ==> Negative(values[off]))
    ensures cellLabel != Unknown
  {
    var negative, positive, zero := false, false, false;
    for off := 0 to CORNERS
      invariant positive <==> exists o :: 0 <= o < off && Positive(values[o])
      invariant negative <==> exists o :: 0 <= o < off && Negative(values[o])
      invariant zero <==> exists o :: 0 <= o < off && Zero(values[o])
    {
      var fp := values[off];
      positive := positive || Positive(fp);
      negative := negative || Negative(fp);
      zero := zero || Zero(fp);
    }
    if positive && !negative && !zero {
      cellLabel := Outside;
    } else if !positive && negative && !zero {
      cellLabel := Inside;
    } else {
      cellLabel := Boundary;
    }
    if Ordered(values) {
      OrderedSigns(values);
    }
  }

  /** Without NaN every corner is positive, negative or zero, so the flag rule
      reads: OUTSIDE exactly when all corners are positive, INSIDE exactly when
      all are negative. */
  lemma OrderedSigns(values: seq<Sample>)
    requires |values| > 0 && Ordered(values)
    ensures CornerLabel(values) == Outside <==> forall off :: 0 <= off < |values| ==> Positive(values[off])
    ensures CornerLabel(values) == Inside <==> forall off :: 0 <= off < |values| ==> Negative(values[off])
  {
    assert Positive(values[0]) || Negative(values[0]) || Zero(values[0]);
    if forall off :: 0 <= off < |values| ==> Positive(values[off]) {
      assert !SomeNegative(values) && !SomeZero(values);
    } else {
      var off :| 0 <= off < |values| && !Positive(values[off]);
      assert Negative(values[off]) || Zero(values[off]);
    }
    if forall off :: 0 <= off < |values| ==> Negative(values[off]) {
      assert !SomePositive(values) && !SomeZero(values);
    } else {
      var off :| 0 <= off < |values| && !Negative(values[off]);
      assert Positive(values[off]) || Zero(values[off]);
    }
  }

  /** A NaN corner sets no flag: seven positive corners and one NaN give
      OUTSIDE, and eight NaN corners give BOUNDARY. */
  lemma NaNCornerIgnored()
    ensures CornerLabel(seq(7, _ => Num(1.0)) + [NaN]) == Outside
    ensures CornerLabel(seq(CORNERS, _ => NaN)) == Boundary
  {
    var mixed := seq(7, _ => Num(1.0)) + [NaN];
    assert Positive(mixed[0]);
    assert !SomeNegative(mixed) && !SomeZero(mixed) by {
      forall off | 0 <= off < |mixed|
        ensures !Negative(mixed[off]) && !Zero(mixed[off])
      {
        if off < 7 {
          assert mixed[off] == Num(1.0);
        }
      }
    }
  }

  /** The values of f at the 8 corners of cell `c`; `f(c, off)` stands for f
      evaluated at corner `off` of the cell's box. */
  function CornerValues(f: (Ijk, nat) -> Sample, c: Ijk): (values: seq<Sample>)
    ensures |values| == CORNERS
    ensures forall off :: 0 <= off < CORNERS ==> values[off] == f(c, off)
  {
    seq(CORNERS, (off: int) => f(c, if off < 0 then 0 else off))
  }

  /** Classifies every cell of the grid from its corner values. */
  method Voxelize(d: Dims, f: (Ijk, nat) -> Sample) returns (cells: seq<Label>)
    ensures |cells| == Size(d)
    ensures forall c :: 0 <= c < |cells| ==> cells[c] == CornerLabel(CornerValues(f, Deserialize(d, c)))
    ensures forall c :: 0 <= c < |cells| ==> cells[c] != Unknown
  {
    cells := [];
    for index := 0 to Size(d)
      invariant |cells| == index
      invariant forall c :: 0 <= c < index ==> cells[c] == CornerLabel(CornerValues(f, Deserialize(d, c)))
      invariant forall c :: 0 <= c < index ==> cells[c] != Unknown
    {
      var ijk := Deserialize(d, index);
      var cellLabel := ClassifyCorners(CornerValues(f, ijk));
      cells := cells + [cellLabel];
    }
  }

  /** A corner exactly on the zero level set makes the cell BOUNDARY, whatever
      the other corners are. */
  lemma ZeroCornerIsBoundary(values: seq<Sample>, off: nat)
    requires off < |values| && values[off] == Num(0.0)
    ensures CornerLabel(values) == Boundary
  {
    assert Zero(values[off]);
  }

  /** Two cells with the same corner values get the same label, wherever they
      are in the grid. */
  lemma LabelDependsOnlyOnCorners(f: (Ijk, nat) -> Sample, a: Ijk, b: Ijk)
    requires forall off :: 0 <= off < CORNERS ==> f(a, off) == f(b, off)
    ensures CornerLabel(CornerValues(f, a)) == CornerLabel(CornerValues(f, b))
  {
    assert CornerValues(f, a) == CornerValues(f, b);
  }
}
