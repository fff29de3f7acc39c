/**
 * Turning the compression and tension CDP sheets into one stress-strain curve
 * (`extract_clean_cdp_data`, the concatenation into `full_strain` /
 * `full_stress`, and the reference strength `FC_REF_FILE`).
 */
module CdpCurve {
  import opened Options
  import opened CdpHeader
  import opened Reals

  /** Elastic modulus of the concrete used to add the elastic strain. */
  const EConc: real := 25000.0

  /** The branch name that selects the compression sign convention. */
  const CompKind := "comp"

  /** Two parallel arrays: `strain[i]` belongs with `stress[i]`. */
  datatype Curve = Curve(strain: seq<real>, stress: seq<real>)

  /** The number in column `c` of a row; `None` for text, NaN or a missing cell. */
  function NumberAt(row: seq<Cell>, c: nat): Option<real> {
    if c < |row| then row[c].numeric else None
  }

  /** Row `row` yields the pair (stress, inelastic strain): both cells are numbers. */
  predicate Yields(row: seq<Cell>, cs: nat, ce: nat, p: (real, real)) {
    NumberAt(row, cs) == Some(p.0) && NumberAt(row, ce) == Some(p.1)
  }

  predicate IsNumericRow(row: seq<Cell>, cs: nat, ce: nat) {
    NumberAt(row, cs).Some? && NumberAt(row, ce).Some?
  }

  /** The (stress, inelastic strain) pairs of the rows whose two cells are both
      numbers, in row order (`apply(pd.to_numeric, errors='coerce').dropna()`). */
  function CleanPairs(rows: seq<seq<Cell>>, cs: nat, ce: nat): (r: seq<(real, real)>)
    ensures |r| <= |rows|
  {
    if rows == [] then []
    else
      var rest := CleanPairs(rows[1..], cs, ce);
      if IsNumericRow(rows[0], cs, ce)
      then [(NumberAt(rows[0], cs).value, NumberAt(rows[0], ce).value)] + rest
      else rest
  }

  /** Every kept pair comes from some row. */
  lemma {:induction false} CleanPairsSound(rows: seq<seq<Cell>>, cs: nat, ce: nat, i: nat)
    requires i < |CleanPairs(rows, cs, ce)|
    ensures exists j :: 0 <= j < |rows| && Yields(rows[j], cs, ce, CleanPairs(rows, cs, ce)[i])
  {
    var p := CleanPairs(rows, cs, ce)[i];
    if IsNumericRow(rows[0], cs, ce) && i == 0 {
      assert Yields(rows[0], cs, ce, p);
    } else {
      var i' := if IsNumericRow(rows[0], cs, ce) then i - 1 else i;
      CleanPairsSound(rows[1..], cs, ce, i');
      var j :| 0 <= j < |rows[1..]| && Yields(rows[1..][j], cs, ce, CleanPairs(rows[1..], cs, ce)[i']);
      assert Yields(rows[j + 1], cs, ce, p);
    }
  }

  /** Every row with two numbers is kept. */
  lemma {:induction false} CleanPairsComplete(rows: seq<seq<Cell>>, cs: nat, ce: nat, j: nat)
    requires j < |rows| && IsNumericRow(rows[j], cs, ce)
    ensures exists i :: 0 <= i < |CleanPairs(rows, cs, ce)|
                        && Yields(rows[j], cs, ce, CleanPairs(rows, cs, ce)[i])
  {
    var out := CleanPairs(rows, cs, ce);
    if j == 0 {
      assert Yields(rows[0], cs, ce, out[0]);
    } else {
      CleanPairsComplete(rows[1..], cs, ce, j - 1);
      var rest := CleanPairs(rows[1..], cs, ce);
      var i :| 0 <= i < |rest| && Yields(rows[1..][j - 1], cs, ce, rest[i]);
      var k := if IsNumericRow(rows[0], cs, ce) then i + 1 else i;
      assert out[k] == rest[i];
    }
  }

  /** A single row contributes its pair when both cells are numbers, and
      nothing otherwise. */
  lemma CleanPairsOne(row: seq<Cell>, cs: nat, ce: nat)
    ensures IsNumericRow(row, cs, ce) ==>
              CleanPairs([row], cs, ce) == [(NumberAt(row, cs).value, NumberAt(row, ce).value)]
    ensures !IsNumericRow(row, cs, ce) ==> CleanPairs([row], cs, ce) == []
  {
    assert [row][1..] == [];
  }

  /** The filter works row by row and keeps row order: the pairs of two
      consecutive blocks of rows are the pairs of the first block followed by
      those of the second. */
  lemma {:induction false} CleanPairsAppend(a: seq<seq<Cell>>, b: seq<seq<Cell>>, cs: nat, ce: nat)
    ensures CleanPairs(a + b, cs, ce) == CleanPairs(a, cs, ce) + CleanPairs(b, cs, ce)
    decreases |a|
  {
    if a == [] {
      assert a + b == b;
    } else {
      assert (a + b)[0] == a[0];
      assert (a + b)[1..] == a[1..] + b;
      CleanPairsAppend(a[1..], b, cs, ce);
    }
  }

  /** No row is dropped exactly when every row has two numbers. */
  lemma {:induction false} CleanPairsKeepsAllIff(rows: seq<seq<Cell>>, cs: nat, ce: nat)
    ensures |CleanPairs(rows, cs, ce)| == |rows|
            <==> forall j :: 0 <= j < |rows| ==> IsNumericRow(rows[j], cs, ce)
  {
    if rows != [] {
      CleanPairsKeepsAllIff(rows[1..], cs, ce);
      if forall j :: 0 <= j < |rows| ==> IsNumericRow(rows[j], cs, ce) {
        forall j | 0 <= j < |rows[1..]| ensures IsNumericRow(rows[1..][j], cs, ce) {
          assert rows[1..][j] == rows[j + 1];
        }
      } else if IsNumericRow(rows[0], cs, ce) {
        var j :| 0 <= j < |rows| && !IsNumericRow(rows[j], cs, ce);
        assert !IsNumericRow(rows[1..][j - 1], cs, ce);
      }
    }
  }

  /** The stress after the sign convention of the branch. */
  function SignedStress(kind: string, s: real): real {
    if kind == CompKind then -Abs(s) else Abs(s)
  }

  /** The total strain: inelastic strain plus stress over modulus, both with the
      sign of the branch. */
  function SignedStrain(kind: string, s: real, ine: real): real {
    var st := SignedStress(kind, s);
    if kind == CompKind then -(Abs(ine) + Abs(st) / EConc) else Abs(ine) + Abs(st) / EConc
  }

  /** The data rows: everything below the header row. */
  function DataRows(grid: seq<seq<Cell>>, h: Header): seq<seq<Cell>>
    requires h.startRow.Some? && h.startRow.value < |grid|
  {
    grid[h.startRow.value + 1..]
  }

  /** The header is usable: all three results are known. */
  predicate Complete(h: Header) {
    h.stressCol.Some? && h.strainCol.Some? && h.startRow.Some?
  }

  /** `extract_clean_cdp_data(df_raw, kind)`: `None` when the header scan left a
      column or the header row unknown (Python fails on the `None` index). */
  function ExtractCdp(grid: seq<seq<Cell>>, kind: string): (res: Option<Curve>)
    ensures res.Some? <==> Complete(HeaderOf(grid))
    ensures res.Some? ==>
      var h := HeaderOf(grid);
      var c := res.value;
      && |c.strain| == |c.stress| <= |grid| - h.startRow.value - 1
      && (kind == CompKind ==> forall i :: 0 <= i < |c.stress| ==> c.stress[i] <= 0.0 && c.strain[i] <= 0.0)
      && (kind != CompKind ==> forall i :: 0 <= i < |c.stress| ==> c.stress[i] >= 0.0 && c.strain[i] >= 0.0)
  {
    var h := HeaderOf(grid);
    if !Complete(h) then None
    else
      HeaderSound(grid);
      var pairs := CleanPairs(DataRows(grid, h), h.stressCol.value, h.strainCol.value);
      Some(Curve(seq(|pairs|, i requires 0 <= i < |pairs| => SignedStrain(kind, pairs[i].0, pairs[i].1)),
                 seq(|pairs|, i requires 0 <= i < |pairs| => SignedStress(kind, pairs[i].0))))
  }

  /** Each extracted point comes from one data row below the header whose stress
      and strain cells are numbers: its stress is that stress with the branch's
      sign, and its strain less its elastic part stress/E is that inelastic
      strain with the branch's sign. */
  lemma ExtractedPointFromRow(grid: seq<seq<Cell>>, kind: string, i: nat)
    requires ExtractCdp(grid, kind).Some?
    requires i < |ExtractCdp(grid, kind).value.stress|
    ensures var h := HeaderOf(grid);
      var c := ExtractCdp(grid, kind).value;
      exists j, s, ine :: h.startRow.value < j < |grid|
        && Yields(grid[j], h.stressCol.value, h.strainCol.value, (s, ine))
        && c.stress[i] == SignedStress(kind, s)
        && c.strain[i] - c.stress[i] / EConc == (if kind == CompKind then -Abs(ine) else Abs(ine))
  {
    var h := HeaderOf(grid);
    HeaderSound(grid);
    var rows := DataRows(grid, h);
    var pairs := CleanPairs(rows, h.stressCol.value, h.strainCol.value);
    CleanPairsSound(rows, h.stressCol.value, h.strainCol.value, i);
    var j :| 0 <= j < |rows| && Yields(rows[j], h.stressCol.value, h.strainCol.value, pairs[i]);
    assert rows[j] == grid[h.startRow.value + 1 + j];
    var s, ine := pairs[i].0, pairs[i].1;
    assert Yields(grid[h.startRow.value + 1 + j], h.stressCol.value, h.strainCol.value, (s, ine));
  }

  /** Every data row below the header whose two cells are numbers contributes a
      point, and it sits at the index given by the number of such rows between
      the header and it: the point carries the row's stress and total strain
      with the branch's sign. */
  lemma NumericRowExtracted(grid: seq<seq<Cell>>, kind: string, j: nat)
    requires ExtractCdp(grid, kind).Some?
    requires HeaderOf(grid).startRow.value < j < |grid|
    requires IsNumericRow(grid[j], HeaderOf(grid).stressCol.value, HeaderOf(grid).strainCol.value)
    ensures var h := HeaderOf(grid);
      var c := ExtractCdp(grid, kind).value;
      var i := |CleanPairs(grid[h.startRow.value + 1..j], h.stressCol.value, h.strainCol.value)|;
      var s := NumberAt(grid[j], h.stressCol.value).value;
      var ine := NumberAt(grid[j], h.strainCol.value).value;
      && i < |c.stress|
      && c.stress[i] == SignedStress(kind, s)
      && c.strain[i] == SignedStrain(kind, s, ine)
  {
    var h := HeaderOf(grid);
    HeaderSound(grid);
    var cs, ce := h.stressCol.value, h.strainCol.value;
    var rows := DataRows(grid, h);
    var k := j - h.startRow.value - 1;
    assert rows[k] == grid[j];
    assert rows[..k] == grid[h.startRow.value + 1..j];
    assert rows == rows[..k] + ([rows[k]] + rows[k + 1..]);
    CleanPairsAppend([rows[k]], rows[k + 1..], cs, ce);
    CleanPairsAppend(rows[..k], [rows[k]] + rows[k + 1..], cs, ce);
    CleanPairsOne(rows[k], cs, ce);
    var pairs := CleanPairs(rows, cs, ce);
    var i := |CleanPairs(rows[..k], cs, ce)|;
    assert pairs[i] == (NumberAt(grid[j], cs).value, NumberAt(grid[j], ce).value);
  }

  // ---------------------------------------------------------------------------
  // Curve assembly

  function Reverse(s: seq<real>): (r: seq<real>)
    ensures |r| == |s|
    ensures forall i :: 0 <= i < |s| ==> r[i] == s[|s| - 1 - i]
  {
    if s == [] then [] else Reverse(s[1..]) + [s[0]]
  }

  /** `np.concatenate([comp[::-1], [0], tens])` for strain and for stress. */
  function Assemble(comp: Curve, tens: Curve): (full: Curve)
    ensures |full.strain| == |comp.strain| + 1 + |tens.strain|
    ensures |full.stress| == |comp.stress| + 1 + |tens.stress|
    ensures full.strain[|comp.strain|] == 0.0 && full.stress[|comp.stress|] == 0.0
    ensures forall i :: 0 <= i < |comp.strain| ==> full.strain[i] == comp.strain[|comp.strain| - 1 - i]
    ensures forall i :: 0 <= i < |comp.stress| ==> full.stress[i] == comp.stress[|comp.stress| - 1 - i]
    ensures forall i :: 0 <= i < |tens.strain| ==> full.strain[|comp.strain| + 1 + i] == tens.strain[i]
    ensures forall i :: 0 <= i < |tens.stress| ==> full.stress[|comp.stress| + 1 + i] == tens.stress[i]
  {
    Curve(Reverse(comp.strain) + [0.0] + tens.strain, Reverse(comp.stress) + [0.0] + tens.stress)
  }

  /** `np.max(np.abs(s))`: `None` on an empty array, where numpy raises. */
  function MaxAbs(s: seq<real>): (m: Option<real>)
    ensures m.None? <==> s == []
    ensures m.Some? ==> forall i :: 0 <= i < |s| ==> Abs(s[i]) <= m.value
    ensures m.Some? ==> exists i :: 0 <= i < |s| && m.value == Abs(s[i])
  {
    if s == [] then None
    else
      match MaxAbs(s[1..])
      case None => Some(Abs(s[0]))
      case Some(rest) =>
        if Abs(s[0]) >= rest then Some(Abs(s[0]))
        else
          assert forall i :: 1 <= i < |s| ==> s[i] == s[1..][i - 1];
          Some(rest)
  }

  /** `FC_REF_FILE`: the compressive strength read off the compression curve. */
  function FcRef(comp: Curve): Option<real> {
    MaxAbs(comp.stress)
  }

  /** The assembled curve of two extracted branches runs from the compression
      side to the tension side through the origin: every point before the
      origin has non-positive strain and stress no lower than -FC_REF_FILE, and
      every point after it has non-negative strain and stress. */
  lemma AssembledCurveSigns(compGrid: seq<seq<Cell>>, tensGrid: seq<seq<Cell>>, tensKind: string)
    requires tensKind != CompKind
    requires ExtractCdp(compGrid, CompKind).Some? && ExtractCdp(tensGrid, tensKind).Some?
    ensures var comp := ExtractCdp(compGrid, CompKind).value;
      var tens := ExtractCdp(tensGrid, tensKind).value;
      var full := Assemble(comp, tens);
      var n := |comp.stress|;
      && |full.strain| == |full.stress| == n + 1 + |tens.stress|
      && (forall i :: 0 <= i <= n ==> full.strain[i] <= 0.0 && full.stress[i] <= 0.0)
      && (forall i :: n <= i < |full.stress| ==> full.strain[i] >= 0.0 && full.stress[i] >= 0.0)
      && (n > 0 ==> FcRef(comp).Some? && forall i :: 0 <= i <= n ==> -FcRef(comp).value <= full.stress[i])
  {
    var comp := ExtractCdp(compGrid, CompKind).value;
    var tens := ExtractCdp(tensGrid, tensKind).value;
    var full := Assemble(comp, tens);
    var n := |comp.stress|;
    forall i | n < i < |full.stress| ensures full.strain[i] >= 0.0 && full.stress[i] >= 0.0 {
      assert full.strain[i] == tens.strain[i - n - 1];
    }
    if n > 0 {
      var m := FcRef(comp).value;
      forall i | 0 <= i < n ensures -m <= full.stress[i] {
        assert Abs(comp.stress[n - 1 - i]) <= m;
      }
      assert Abs(comp.stress[0]) <= m;
    }
  }
}
