/**
 * Locating the stress column, the inelastic-strain column and the header row
 * of a concrete-damaged-plasticity (CDP) sheet read without a header
 * (`get_columns_by_header`).
 *
 * The sheet is a grid of cells. Each cell carries its text rendering (what
 * `astype(str)` yields) and the number it coerces to, if any (what
 * `pd.to_numeric(..., errors='coerce')` yields; `None` stands for NaN).
 */
module CdpHeader {
  import opened Options
  import opened Text

  datatype Cell = Cell(text: string, numeric: Option<real>)

  /** The three results of the scan; `None` is Python's `None`. */
  datatype Header = Header(stressCol: Option<nat>, strainCol: Option<nat>, startRow: Option<nat>)

  const NoHeader := Header(None, None, None)

  /** At most this many leading rows are inspected. */
  const HeaderRowLimit: nat := 20

  /** `min(20, len(df_raw))`. */
  function ScanLimit(grid: seq<seq<Cell>>): nat {
    if |grid| < HeaderRowLimit then |grid| else HeaderRowLimit
  }

  /** The cell names the inelastic (compression) or cracking (tension) strain. */
  predicate IsStrainLabel(text: string) {
    var v := Lower(text);
    Contains(v, "inelastic") || Contains(v, "cracking")
  }

  /** The cell names the stress. */
  predicate IsStressLabel(text: string) {
    var v := Lower(text);
    Contains(v, "stress") || Contains(v, "sigma") || Contains(v, "\U{03C3}")
  }

  /** Both columns are known: the scan stops after such a row. */
  predicate Found(h: Header) {
    h.stressCol.Some? && h.strainCol.Some?
  }

  /** The effect of the cell at column `c` of row `r` on the scan state. */
  function CellStep(h: Header, text: string, r: nat, c: nat): Header {
    var h1 := if IsStrainLabel(text) then h.(strainCol := Some(c), startRow := Some(r)) else h;
    if IsStressLabel(text) then h1.(stressCol := Some(c)) else h1
  }

  /** The scan state after visiting the cells of row `r` from left to right. */
  function ScanRow(row: seq<Cell>, r: nat, h: Header): Header
    decreases |row|
  {
    if row == [] then h
    else CellStep(ScanRow(row[..|row| - 1], r, h), row[|row| - 1].text, r, |row| - 1)
  }

  /** The scan state after visiting rows `r` up to `limit`, stopping after the
      first row at which both columns are known. */
  function ScanFrom(grid: seq<seq<Cell>>, r: nat, limit: nat, h: Header): Header
    requires limit <= |grid|
    decreases limit - r
  {
    if r >= limit then h
    else
      var h' := ScanRow(grid[r], r, h);
      if Found(h') then h' else ScanFrom(grid, r + 1, limit, h')
  }

  /** What `get_columns_by_header` returns. */
  function HeaderOf(grid: seq<seq<Cell>>): Header {
    ScanFrom(grid, 0, ScanLimit(grid), NoHeader)
  }

  /** The nested scan, with its early exit. */
  method GetColumnsByHeader(grid: seq<seq<Cell>>)
    returns (stressCol: Option<nat>, strainCol: Option<nat>, startRow: Option<nat>)
    ensures Header(stressCol, strainCol, startRow) == HeaderOf(grid)
  {
    stressCol, strainCol, startRow := None, None, None;
    var limit := if |grid| < HeaderRowLimit then |grid| else HeaderRowLimit;
    var r := 0;
    while r < limit
      invariant 0 <= r <= limit == ScanLimit(grid)
      invariant ScanFrom(grid, r, limit, Header(stressCol, strainCol, startRow)) == HeaderOf(grid)
    {
      var row := grid[r];
      ghost var before := Header(stressCol, strainCol, startRow);
      var c := 0;
      while c < |row|
        invariant 0 <= c <= |row|
        invariant Header(stressCol, strainCol, startRow) == ScanRow(row[..c], r, before)
      {
        var val := Lower(row[c].text);
        if Contains(val, "inelastic") || Contains(val, "cracking") {
          strainCol := Some(c);
          startRow := Some(r);
        }
        if Contains(val, "stress") || Contains(val, "sigma") || Contains(val, "\U{03C3}") {
          stressCol := Some(c);
        }
        assert row[..c + 1][..c] == row[..c];
        c := c + 1;
      }
      assert row[..c] == row;
      if stressCol.Some? && strainCol.Some? {
        break;
      }
      r := r + 1;
    }
  }

  // ---------------------------------------------------------------------------
  // Where the labels are

  ghost predicate StrainLabelAt(grid: seq<seq<Cell>>, r: int, c: int) {
    0 <= r < |grid| && 0 <= c < |grid[r]| && IsStrainLabel(grid[r][c].text)
  }

  ghost predicate StressLabelAt(grid: seq<seq<Cell>>, r: int, c: int) {
    0 <= r < |grid| && 0 <= c < |grid[r]| && IsStressLabel(grid[r][c].text)
  }

  /** Some row in `lo..hi` holds a strain label. */
  ghost predicate StrainIn(grid: seq<seq<Cell>>, lo: int, hi: int) {
    exists r, c :: lo <= r < hi && StrainLabelAt(grid, r, c)
  }

  /** Some row in `lo..hi` holds a stress label. */
  ghost predicate StressIn(grid: seq<seq<Cell>>, lo: int, hi: int) {
    exists r, c :: lo <= r < hi && StressLabelAt(grid, r, c)
  }

  ghost predicate RowHasStrain(row: seq<Cell>) {
    exists c :: 0 <= c < |row| && IsStrainLabel(row[c].text)
  }

  ghost predicate RowHasStress(row: seq<Cell>) {
    exists c :: 0 <= c < |row| && IsStressLabel(row[c].text)
  }

  /** Column `c` is the right-most strain label of the row. */
  ghost predicate LastStrainCell(row: seq<Cell>, c: int) {
    0 <= c < |row| && IsStrainLabel(row[c].text)
    && forall j :: c < j < |row| ==> !IsStrainLabel(row[j].text)
  }

  /** Column `c` is the right-most stress label of the row. */
  ghost predicate LastStressCell(row: seq<Cell>, c: int) {
    0 <= c < |row| && IsStressLabel(row[c].text)
    && forall j :: c < j < |row| ==> !IsStressLabel(row[j].text)
  }

  // ---------------------------------------------------------------------------
  // Within one row

  /** Within a row the last strain label wins and sets the header row to this
      row; without a strain label the strain column and header row carry over. */
  lemma {:induction false} ScanRowStrain(row: seq<Cell>, r: nat, h: Header)
    ensures var h' := ScanRow(row, r, h);
      && (RowHasStrain(row) ==>
            h'.strainCol.Some? && LastStrainCell(row, h'.strainCol.value) && h'.startRow == Some(r))
      && (!RowHasStrain(row) ==> h'.strainCol == h.strainCol && h'.startRow == h.startRow)
    decreases |row|
  {
    if row != [] {
      var n := |row| - 1;
      var p := row[..n];
      ScanRowStrain(p, r, h);
      var hp := ScanRow(p, r, h);
      if IsStrainLabel(row[n].text) {
        assert LastStrainCell(row, n);
      } else if RowHasStrain(p) {
        var c := hp.strainCol.value;
        assert p[c] == row[c];
        forall j | c < j < |row| ensures !IsStrainLabel(row[j].text) {
          if j < n { assert p[j] == row[j]; }
        }
      } else {
        forall c | 0 <= c < |row| ensures !IsStrainLabel(row[c].text) {
          if c < n { assert p[c] == row[c]; }
        }
      }
    }
  }

  /** Within a row the last stress label wins; without one the stress column
      carries over from earlier rows. */
  lemma {:induction false} ScanRowStress(row: seq<Cell>, r: nat, h: Header)
    ensures var h' := ScanRow(row, r, h);
      && (RowHasStress(row) ==> h'.stressCol.Some? && LastStressCell(row, h'.stressCol.value))
      && (!RowHasStress(row) ==> h'.stressCol == h.stressCol)
    decreases |row|
  {
    if row != [] {
      var n := |row| - 1;
      var p := row[..n];
      ScanRowStress(p, r, h);
      var hp := ScanRow(p, r, h);
      if IsStressLabel(row[n].text) {
        assert LastStressCell(row, n);
      } else if RowHasStress(p) {
        var c := hp.stressCol.value;
        assert p[c] == row[c];
        forall j | c < j < |row| ensures !IsStressLabel(row[j].text) {
          if j < n { assert p[j] == row[j]; }
        }
      } else {
        forall c | 0 <= c < |row| ensures !IsStressLabel(row[c].text) {
          if c < n { assert p[c] == row[c]; }
        }
      }
    }
  }

  /** Row `r` of the grid seen as the row-level facts above. */
  lemma RowStrainIsGridStrain(grid: seq<seq<Cell>>, r: nat)
    requires r < |grid|
    ensures RowHasStrain(grid[r]) <==> exists c :: StrainLabelAt(grid, r, c)
    ensures RowHasStress(grid[r]) <==> exists c :: StressLabelAt(grid, r, c)
  {
    if RowHasStrain(grid[r]) {
      var c :| 0 <= c < |grid[r]| && IsStrainLabel(grid[r][c].text);
      assert StrainLabelAt(grid, r, c);
    }
    if RowHasStress(grid[r]) {
      var c :| 0 <= c < |grid[r]| && IsStressLabel(grid[r][c].text);
      assert StressLabelAt(grid, r, c);
    }
  }

  /** Rows `lo..hi` split into row `lo` and rows `lo+1..hi`. */
  lemma SplitFirstRow(grid: seq<seq<Cell>>, lo: nat, hi: nat)
    requires lo < hi <= |grid|
    ensures StrainIn(grid, lo, hi) <==> RowHasStrain(grid[lo]) || StrainIn(grid, lo + 1, hi)
    ensures StressIn(grid, lo, hi) <==> RowHasStress(grid[lo]) || StressIn(grid, lo + 1, hi)
  {
    RowStrainIsGridStrain(grid, lo);
    if StrainIn(grid, lo, hi) {
      var r, c :| lo <= r < hi && StrainLabelAt(grid, r, c);
      if r > lo { assert StrainIn(grid, lo + 1, hi); }
    }
    if StressIn(grid, lo, hi) {
      var r, c :| lo <= r < hi && StressLabelAt(grid, r, c);
      if r > lo { assert StressIn(grid, lo + 1, hi); }
    }
  }

  // ---------------------------------------------------------------------------
  // Across rows

  /** A column stays unknown exactly when no scanned row names it. */
  lemma {:induction false} ScanFromNone(grid: seq<seq<Cell>>, r: nat, limit: nat, h: Header)
    requires r <= limit <= |grid|
    ensures var res := ScanFrom(grid, r, limit, h);
      && (res.strainCol.None? <==> h.strainCol.None? && !StrainIn(grid, r, limit))
      && (res.stressCol.None? <==> h.stressCol.None? && !StressIn(grid, r, limit))
    decreases limit - r
  {
    if r < limit {
      var h' := ScanRow(grid[r], r, h);
      ScanRowStrain(grid[r], r, h);
      ScanRowStress(grid[r], r, h);
      SplitFirstRow(grid, r, limit);
      if !Found(h') {
        ScanFromNone(grid, r + 1, limit, h');
      }
    }
  }

  /** The header scan finds no strain column (and no header row) exactly when
      none of the first min(20, rows) rows has an "inelastic"/"cracking" cell,
      and no stress column exactly when none has a "stress"/"sigma"/"σ" cell. */
  lemma HeaderNoneIff(grid: seq<seq<Cell>>)
    ensures var h := HeaderOf(grid);
      && (h.strainCol.None? <==> !StrainIn(grid, 0, ScanLimit(grid)))
      && (h.startRow.None? <==> h.strainCol.None?)
      && (h.stressCol.None? <==> !StressIn(grid, 0, ScanLimit(grid)))
  {
    ScanFromNone(grid, 0, ScanLimit(grid), NoHeader);
    HeaderSound(grid);
  }

  /** What a scan state reached after the rows below `hi` guarantees. */
  ghost predicate Sound(grid: seq<seq<Cell>>, h: Header, hi: nat) {
    && hi <= |grid|
    && (h.strainCol.Some? <==> h.startRow.Some?)
    && (h.startRow.Some? ==>
          h.startRow.value < hi && LastStrainCell(grid[h.startRow.value], h.strainCol.value))
    && (h.stressCol.Some? ==> exists r :: 0 <= r < hi && StressLabelAt(grid, r, h.stressCol.value))
  }

  lemma {:induction false} ScanFromSound(grid: seq<seq<Cell>>, r: nat, limit: nat, h: Header)
    requires r <= limit <= |grid|
    requires Sound(grid, h, r)
    ensures Sound(grid, ScanFrom(grid, r, limit, h), limit)
    decreases limit - r
  {
    if r < limit {
      var h' := ScanRow(grid[r], r, h);
      ScanRowStrain(grid[r], r, h);
      ScanRowStress(grid[r], r, h);
      if h'.stressCol != h.stressCol {
        assert StressLabelAt(grid, r, h'.stressCol.value);
      } else if h.stressCol.Some? {
        var q :| 0 <= q < r && StressLabelAt(grid, q, h.stressCol.value);
        assert StressLabelAt(grid, q, h'.stressCol.value);
      }
      assert Sound(grid, h', r + 1);
      if !Found(h') {
        ScanFromSound(grid, r + 1, limit, h');
      }
    }
  }

  /** Every column the scan reports was read from one of the first
      min(20, rows) rows: the header row holds a strain label at the strain
      column, and it is the right-most one of that row; some scanned row holds
      a stress label at the stress column. */
  lemma HeaderSound(grid: seq<seq<Cell>>)
    ensures Sound(grid, HeaderOf(grid), ScanLimit(grid))
  {
    ScanFromSound(grid, 0, ScanLimit(grid), NoHeader);
  }

  /** Both a strain label and a stress label occur above row `q`: the scan has
      stopped before it reaches row `q`. */
  ghost predicate SeenBoth(grid: seq<seq<Cell>>, q: int) {
    StrainIn(grid, 0, q) && StressIn(grid, 0, q)
  }

  lemma SeenBothLater(grid: seq<seq<Cell>>, q: int, q': int)
    requires q <= q' && SeenBoth(grid, q)
    ensures SeenBoth(grid, q')
  {
    var r, c :| 0 <= r < q && StrainLabelAt(grid, r, c);
    var r', c' :| 0 <= r' < q && StressLabelAt(grid, r', c');
    assert r < q' && r' < q';
  }

  /** Rows `lo..hi+1` split into rows `lo..hi` and row `hi`. */
  lemma SplitLastRow(grid: seq<seq<Cell>>, lo: nat, hi: nat)
    requires lo <= hi < |grid|
    ensures StrainIn(grid, lo, hi + 1) <==> StrainIn(grid, lo, hi) || RowHasStrain(grid[hi])
    ensures StressIn(grid, lo, hi + 1) <==> StressIn(grid, lo, hi) || RowHasStress(grid[hi])
  {
    RowStrainIsGridStrain(grid, hi);
    if StrainIn(grid, lo, hi + 1) {
      var r, c :| lo <= r < hi + 1 && StrainLabelAt(grid, r, c);
      if r < hi { assert StrainIn(grid, lo, hi); }
    }
    if StressIn(grid, lo, hi + 1) {
      var r, c :| lo <= r < hi + 1 && StressLabelAt(grid, r, c);
      if r < hi { assert StressIn(grid, lo, hi); }
    }
  }

  /** The header row was inspected, and every later strain-label row below `n`
      lies past the point where the scan stopped. */
  ghost predicate LatestStrain(grid: seq<seq<Cell>>, h: Header, n: nat)
    requires n <= |grid|
  {
    h.startRow.Some? ==>
      && h.startRow.value < n
      && !SeenBoth(grid, h.startRow.value)
      && forall q :: h.startRow.value < q < n && RowHasStrain(grid[q]) ==> SeenBoth(grid, q)
  }

  /** The stress column is the right-most stress label of an inspected row after
      which no inspected row below `n` has one. */
  ghost predicate LatestStress(grid: seq<seq<Cell>>, h: Header, n: nat)
    requires n <= |grid|
  {
    h.stressCol.Some? ==>
      exists s :: 0 <= s < n && !SeenBoth(grid, s) && LastStressCell(grid[s], h.stressCol.value)
                  && forall q :: s < q < n && RowHasStress(grid[q]) ==> SeenBoth(grid, q)
  }

  /** The scan state names the most recent labels among the inspected rows. */
  ghost predicate Latest(grid: seq<seq<Cell>>, h: Header, n: nat) {
    n <= |grid| && LatestStrain(grid, h, n) && LatestStress(grid, h, n)
  }

  lemma LatestStrainStep(grid: seq<seq<Cell>>, r: nat, h: Header)
    requires r < |grid|
    requires !SeenBoth(grid, r)
    requires h.strainCol.None? <==> !StrainIn(grid, 0, r)
    requires LatestStrain(grid, h, r)
    ensures var h' := ScanRow(grid[r], r, h);
      (h'.strainCol.None? <==> !StrainIn(grid, 0, r + 1)) && LatestStrain(grid, h', r + 1)
  {
    ScanRowStrain(grid[r], r, h);
    SplitLastRow(grid, 0, r);
  }

  lemma LatestStressStep(grid: seq<seq<Cell>>, r: nat, h: Header)
    requires r < |grid|
    requires !SeenBoth(grid, r)
    requires h.stressCol.None? <==> !StressIn(grid, 0, r)
    requires LatestStress(grid, h, r)
    ensures var h' := ScanRow(grid[r], r, h);
      (h'.stressCol.None? <==> !StressIn(grid, 0, r + 1)) && LatestStress(grid, h', r + 1)
  {
    var h' := ScanRow(grid[r], r, h);
    ScanRowStress(grid[r], r, h);
    SplitLastRow(grid, 0, r);
    if h'.stressCol.Some? && !RowHasStress(grid[r]) {
      var s :| 0 <= s < r && !SeenBoth(grid, s) && LastStressCell(grid[s], h.stressCol.value)
               && forall q :: s < q < r && RowHasStress(grid[q]) ==> SeenBoth(grid, q);
      assert forall q :: s < q < r + 1 && RowHasStress(grid[q]) ==> SeenBoth(grid, q);
    }
  }

  /** Rows after a point where both labels were seen are never inspected, so
      they do not disturb the most recent labels. */
  lemma LatestPastStop(grid: seq<seq<Cell>>, h: Header, n: nat, limit: nat)
    requires n <= limit <= |grid|
    requires SeenBoth(grid, n) && Latest(grid, h, n)
    ensures Latest(grid, h, limit)
  {
    forall q | n <= q < limit ensures SeenBoth(grid, q) {
      SeenBothLater(grid, n, q);
    }
    if h.stressCol.Some? {
      var s :| 0 <= s < n && !SeenBoth(grid, s) && LastStressCell(grid[s], h.stressCol.value)
               && forall q :: s < q < n && RowHasStress(grid[q]) ==> SeenBoth(grid, q);
      assert forall q :: s < q < limit && RowHasStress(grid[q]) ==> SeenBoth(grid, q);
    }
  }

  lemma {:induction false} ScanFromLatest(grid: seq<seq<Cell>>, r: nat, limit: nat, h: Header)
    requires r <= limit <= |grid|
    requires !SeenBoth(grid, r)
    requires h.strainCol.None? <==> !StrainIn(grid, 0, r)
    requires h.stressCol.None? <==> !StressIn(grid, 0, r)
    requires Latest(grid, h, r)
    ensures Latest(grid, ScanFrom(grid, r, limit, h), limit)
    decreases limit - r
  {
    if r < limit {
      var h' := ScanRow(grid[r], r, h);
      LatestStrainStep(grid, r, h);
      LatestStressStep(grid, r, h);
      if Found(h') {
        LatestPastStop(grid, h', r + 1, limit);
      } else {
        ScanFromLatest(grid, r + 1, limit, h');
      }
    }
  }

  /** The scan reports the most recent labels it inspected. The header row is
      the last inspected row holding an "inelastic"/"cracking" cell: it was
      inspected, and any later row among the first min(20, rows) that holds
      one lies below a point where both kinds of label had already been seen,
      so the scan had stopped before it. The stress column is, in the same
      sense, the right-most stress label of the last inspected row holding
      one. */
  lemma HeaderLatest(grid: seq<seq<Cell>>)
    ensures Latest(grid, HeaderOf(grid), ScanLimit(grid))
  {
    ScanFromLatest(grid, 0, ScanLimit(grid), NoHeader);
  }

  lemma {:induction false} ScanFromStops(grid: seq<seq<Cell>>, r: nat, k: nat, limit: nat, h: Header)
    requires r <= k < limit <= |grid|
    requires h.stressCol.Some? || StressIn(grid, r, k + 1)
    requires h.strainCol.Some? || StrainIn(grid, r, k + 1)
    ensures ScanFrom(grid, r, limit, h) == ScanFrom(grid, r, k + 1, h)
    decreases k - r
  {
    var h' := ScanRow(grid[r], r, h);
    ScanRowStrain(grid[r], r, h);
    ScanRowStress(grid[r], r, h);
    SplitFirstRow(grid, r, k + 1);
    if !Found(h') {
      ScanFromStops(grid, r + 1, k, limit, h');
    }
  }

  /** The scan stops after the first row at which both columns are known: once
      rows 0..k hold both a stress label and a strain label, the rows after k
      are never inspected. */
  lemma HeaderStopsEarly(grid: seq<seq<Cell>>, k: nat)
    requires k < ScanLimit(grid)
    requires StressIn(grid, 0, k + 1) && StrainIn(grid, 0, k + 1)
    ensures HeaderOf(grid) == ScanFrom(grid, 0, k + 1, NoHeader)
  {
    ScanFromStops(grid, 0, k, ScanLimit(grid), NoHeader);
  }

  lemma {:induction false} ScanFromSameRows(g1: seq<seq<Cell>>, g2: seq<seq<Cell>>, r: nat, limit: nat, h: Header)
    requires r <= limit <= |g1| && limit <= |g2|
    requires g1[..limit] == g2[..limit]
    ensures ScanFrom(g1, r, limit, h) == ScanFrom(g2, r, limit, h)
    decreases limit - r
  {
    if r < limit {
      assert g1[r] == g1[..limit][r] == g2[..limit][r] == g2[r];
      var h' := ScanRow(g1[r], r, h);
      if !Found(h') {
        ScanFromSameRows(g1, g2, r + 1, limit, h');
      }
    }
  }

  /** The scan reads at most the first min(20, rows) rows: two sheets that agree
      on those rows get the same header. */
  lemma HeaderReadsOnlyLeadingRows(g1: seq<seq<Cell>>, g2: seq<seq<Cell>>)
    requires ScanLimit(g1) == ScanLimit(g2)
    requires g1[..ScanLimit(g1)] == g2[..ScanLimit(g2)]
    ensures HeaderOf(g1) == HeaderOf(g2)
  {
    ScanFromSameRows(g1, g2, 0, ScanLimit(g1), NoHeader);
  }

  /** Header labels match whatever the case they were typed in. */
  lemma LabelsIgnoreCase(text: string)
    ensures IsStrainLabel(Upper(text)) == IsStrainLabel(text)
    ensures IsStressLabel(Upper(text)) == IsStressLabel(text)
  {
    LowerIgnoresCase(text);
  }
}
