/**
 * Min-max scaling of the training table (`normalize_data`) and the unscaling
 * of the network's normalised outputs in the physics loss.
 */
module MinMaxScaling {
  import opened Reals

  /** The stored `{'min': .., 'max': ..}` of one column. */
  datatype Range = Range(min: real, max: real)

  /** `max - min`, replaced by 1 when the column is constant. */
  function Denominator(rg: Range): (d: real)
    ensures d != 0.0
    ensures rg.max != rg.min ==> d == rg.max - rg.min
    ensures rg.max == rg.min ==> d == 1.0
  {
    if rg.max - rg.min == 0.0 then 1.0 else rg.max - rg.min
  }

  function Scale(v: real, rg: Range): real {
    (v - rg.min) / Denominator(rg)
  }

  /** `v_norm * (max - min) + min`, the unscaling used for strain and stress. */
  function Unscale(u: real, rg: Range): real {
    u * (rg.max - rg.min) + rg.min
  }

  /** `abs(...)` of the unscaled concrete strength `fc`. */
  function UnscaleFc(u: real, rg: Range): (r: real)
    ensures r >= 0.0
    ensures r == Unscale(u, rg) || r == -Unscale(u, rg)
  {
    Abs(Unscale(u, rg))
  }

  /** A column that is not in the scaler is copied; column `c` of the table is
      named `columns[c]`. */
  function NormalizedCell(v: real, c: nat, columns: seq<string>, scaler: map<string, Range>): real {
    if c < |columns| && columns[c] in scaler then Scale(v, scaler[columns[c]]) else v
  }

  /** The scaled columns all exist in a table of width `width`; otherwise
      `data[:, i]` raises for the first one that does not. */
  predicate ColumnsFit(columns: seq<string>, scaler: map<string, Range>, width: nat) {
    forall i :: 0 <= i < |columns| && columns[i] in scaler ==> i < width
  }

  /** `normalize_data(data, columns, scaler)`: a new table of the same shape;
      `ok` is false where Python raises an index error. */
  method NormalizeData(data: array2<real>, columns: seq<string>, scaler: map<string, Range>)
    returns (ok: bool, norm: array2<real>)
    ensures fresh(norm)
    ensures norm.Length0 == data.Length0 && norm.Length1 == data.Length1
    ensures ok <==> ColumnsFit(columns, scaler, data.Length1)
    ensures ok ==> forall r, c :: 0 <= r < data.Length0 && 0 <= c < data.Length1 ==>
                     norm[r, c] == NormalizedCell(data[r, c], c, columns, scaler)
  {
    var rows, width := data.Length0, data.Length1;
    norm := new real[rows, width];
    var r := 0;
    while r < rows
      invariant 0 <= r <= rows
      invariant forall i, j :: 0 <= i < r && 0 <= j < width ==> norm[i, j] == data[i, j]
    {
      var c := 0;
      while c < width
        invariant 0 <= c <= width
        invariant forall i, j :: 0 <= i < r && 0 <= j < width ==> norm[i, j] == data[i, j]
        invariant forall j :: 0 <= j < c ==> norm[r, j] == data[r, j]
      {
        norm[r, c] := data[r, c];
        c := c + 1;
      }
      r := r + 1;
    }

    var i := 0;
    while i < |columns|
      invariant 0 <= i <= |columns|
      invariant forall k :: 0 <= k < i && columns[k] in scaler ==> k < width
      invariant forall a, b :: 0 <= a < rows && 0 <= b < width ==>
                  norm[a, b] == if b < i then NormalizedCell(data[a, b], b, columns, scaler) else data[a, b]
    {
      if columns[i] in scaler {
        if i >= width {
          return false, norm;
        }
        var rg := scaler[columns[i]];
        var denom := rg.max - rg.min;
        if denom == 0.0 {
          denom := 1.0;
        }
        var k := 0;
        while k < rows
          invariant 0 <= k <= rows
          invariant forall a, b :: 0 <= a < rows && 0 <= b < width && b != i ==>
                      norm[a, b] == if b < i then NormalizedCell(data[a, b], b, columns, scaler) else data[a, b]
          invariant forall a :: 0 <= a < k ==> norm[a, i] == Scale(data[a, i], rg)
          invariant forall a :: k <= a < rows ==> norm[a, i] == data[a, i]
        {
          norm[k, i] := (data[k, i] - rg.min) / denom;
          k := k + 1;
        }
      }
      i := i + 1;
    }
    ok := true;
  }

  /** A column with max != min sends its min to 0 and its max to 1. */
  lemma ScaleEndpoints(rg: Range)
    requires rg.max != rg.min
    ensures Scale(rg.min, rg) == 0.0 && Scale(rg.max, rg) == 1.0
  {
    var d := Denominator(rg);
    assert d == rg.max - rg.min;
    DivSelf(d);
  }

  lemma DivSelf(d: real)
    requires d != 0.0
    ensures d / d == 1.0
  {
  }

  /** A constant column is only shifted: the denominator is 1. */
  lemma ScaleConstantColumn(v: real, rg: Range)
    requires rg.max == rg.min
    ensures Scale(v, rg) == v - rg.min
  {
  }

  /** Values inside the stored range land in [0, 1], in the same order. */
  lemma ScaleIntoUnitInterval(v: real, w: real, rg: Range)
    requires rg.min <= v <= w <= rg.max
    ensures 0.0 <= Scale(v, rg) <= Scale(w, rg) <= 1.0
  {
    var d := Denominator(rg);
    var a, b := v - rg.min, w - rg.min;
    assert Scale(v, rg) == a / d && Scale(w, rg) == b / d;
    if rg.max != rg.min {
      assert 0.0 <= a <= b <= d;
      DivMonotone(0.0, a, d);
      DivMonotone(a, b, d);
      DivMonotone(b, d, d);
      DivSelf(d);
      assert 0.0 / d == 0.0;
    } else {
      assert a == 0.0 && b == 0.0 && d == 1.0;
    }
  }

  lemma DivMonotone(a: real, b: real, d: real)
    requires d > 0.0 && a <= b
    ensures a / d <= b / d
  {
    assert b / d - a / d == (b - a) / d;
  }

  /** Unscaling undoes scaling for every value of a non-constant column, and for
      the one value a constant column holds. */
  lemma UnscaleScale(v: real, rg: Range)
    requires rg.max != rg.min || v == rg.min
    ensures Unscale(Scale(v, rg), rg) == v
  {
    if rg.max != rg.min {
      var d := rg.max - rg.min;
      assert Scale(v, rg) * d == v - rg.min;
    }
  }

  /** Scaling undoes unscaling for a non-constant column. */
  lemma ScaleUnscale(u: real, rg: Range)
    requires rg.max != rg.min
    ensures Scale(Unscale(u, rg), rg) == u
  {
    var d := rg.max - rg.min;
    assert Unscale(u, rg) - rg.min == u * d;
  }

  /** The unscaled `fc` is the original strength for any non-negative strength. */
  lemma UnscaleFcRecovers(fc: real, rg: Range)
    requires fc >= 0.0
    requires rg.max != rg.min || fc == rg.min
    ensures UnscaleFc(Scale(fc, rg), rg) == fc
  {
    UnscaleScale(fc, rg);
  }
}
