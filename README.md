# Digital twin of a cracking concrete beam: CDP curve preparation and the stress/damage server tick

This project is a Dafny model of the computational core of two Python programs.
One trains the physics-informed neural network (PINN). The other is the server
that streams stress fields, damage and remaining useful life to the renderer.

- **CDP curve preparation** (`code/models/PINN/Code.py`). The compression and
  tension sheets of the concrete-damaged-plasticity (CDP) workbook are scanned for
  their header (`CdpHeader`). Their numeric rows are turned into signed
  stress/strain branches and assembled into one curve through the origin. The
  compressive reference strength `FC_REF_FILE` is read off that curve (`CdpCurve`).
  The training table is min-max scaled, and the network's normalised outputs are
  scaled back in the physics loss (`MinMaxScaling`).
- **One server tick** (`code/server.py`, module `TwinServer`). The features of
  each of the 51×51 grid points are z-score normalised and given to the PINN. The
  predicted stress is amplified by the current damage. The damage evolution law
  is applied, and the field statistics go into a ten-entry history. From a full
  history the LSTM damage prediction and the RUL (remaining useful life) are
  derived. The server's state (`time`, `damage_state`, `history`) is the class
  `TwinServer.Server`, and `Tick` is one iteration of its loop.

Modelling choices:

- Arithmetic is over `real`.
- The two networks are function parameters: `pinn` gives the stress channel
  `predict(X)[0][1]` and `lstm` gives `predict(seq)[0][0]`.
- A sheet cell is `Cell(text, numeric)`. `text` is its string rendering.
  `numeric` is what coercion to a number yields, with `None` for NaN.
- Python exceptions are modelled as results:
  - `Option.None` where `norm` meets a missing key or a zero scale;
  - `Option.None` where the header scan left a column unknown before extraction;
  - `Option.None` where `np.max` meets an empty array;
  - `ok == false` where `normalize_data` indexes a scaled column past the table width;
  - a tick that returns `None` and changes nothing, since all of the server's
    state changes happen after the grid is built.
- A sheet row shorter than a found column counts as a NaN cell. A pandas frame
  is rectangular, so this case does not arise there.
- `rul` is sent as `null` until the history holds ten samples
  (code/server.py:98-107); the model's `rul` is `Option<real>`.

## Model

| member | source | states |
|---|---|---|
| `Text.ContainsIff` | code/models/PINN/Code.py:70-73 | the keyword test `kw in val` is true exactly when the keyword occurs at some position of the cell text |
| `Text.LowerIgnoresCase` | code/models/PINN/Code.py:65 | lower-casing an upper-cased cell gives the same text as lower-casing the cell |
| `CdpHeader.LabelsIgnoreCase` | code/models/PINN/Code.py:65-73 | a cell is a strain or stress label whatever the case of its letters |
| `CdpHeader.GetColumnsByHeader` | code/models/PINN/Code.py:64-76 | the nested scan with its early `break` returns exactly the header the scan specification `HeaderOf` defines |
| `CdpHeader.ScanRowStrain` | code/models/PINN/Code.py:69-72 | within one row the right-most "inelastic"/"cracking" cell sets the strain column and makes this row the start row; a row without one leaves both as they were |
| `CdpHeader.ScanRowStress` | code/models/PINN/Code.py:69-74 | within one row the right-most "stress"/"sigma"/"σ" cell sets the stress column; without one the stress column carries over from earlier rows |
| `CdpHeader.HeaderNoneIff` | code/models/PINN/Code.py:66-75 | the strain column and start row stay `None` exactly when none of the first min(20, rows) rows has a strain label, and likewise the stress column for stress labels (both directions) |
| `CdpHeader.HeaderSound` | code/models/PINN/Code.py:67-75 | the start row is one of the first min(20, rows) rows and holds its right-most strain label at the strain column; the stress column holds a stress label in some scanned row; strain column and start row are known together |
| `CdpHeader.HeaderLatest` | code/models/PINN/Code.py:67-75 | the header row is the last inspected row with a strain label: it was inspected, and any later strain-label row among the first min(20, rows) lies below a row by which both kinds of label had been seen, so the scan had stopped; the stress column is the right-most stress label of the last inspected row holding one, in the same sense |
| `CdpHeader.HeaderStopsEarly` | code/models/PINN/Code.py:75 | once rows 0..k hold both a stress label and a strain label, the result is that of scanning rows 0..k only: later rows are never inspected |
| `CdpHeader.HeaderReadsOnlyLeadingRows` | code/models/PINN/Code.py:67 | two sheets that agree on their first min(20, rows) rows get the same header |
| `CdpCurve.CleanPairs` | code/models/PINN/Code.py:80-82 | each data row contributes at most one kept (stress, inelastic strain) pair |
| `CdpCurve.CleanPairsOne` | code/models/PINN/Code.py:82 | a single row yields its pair when both cells are numbers and nothing otherwise |
| `CdpCurve.CleanPairsAppend` | code/models/PINN/Code.py:82 | the pairs of two consecutive blocks of rows are those of the first block followed by those of the second: one pair per numeric row, in row order |
| `CdpCurve.CleanPairsSound` | code/models/PINN/Code.py:82 | each kept pair is the two numbers of some row |
| `CdpCurve.CleanPairsComplete` | code/models/PINN/Code.py:82 | every row whose two cells are numbers contributes its pair |
| `CdpCurve.CleanPairsKeepsAllIff` | code/models/PINN/Code.py:82 | no row is dropped exactly when every row has two numeric cells |
| `CdpCurve.ExtractCdp` | code/models/PINN/Code.py:78-94 | extraction succeeds exactly when the header scan found both columns and the start row; stress and strain have equal length, at most the number of rows below the start row; for 'comp' all stresses and strains are ≤ 0, for any other kind all are ≥ 0 |
| `CdpCurve.ExtractedPointFromRow` | code/models/PINN/Code.py:80-93 | each extracted point comes from a numeric row below the start row: stress is that row's stress with the branch's sign, and strain minus stress/25000 is that row's inelastic strain with the branch's sign |
| `CdpCurve.NumericRowExtracted` | code/models/PINN/Code.py:80-93 | every numeric row below the start row yields a point at the index equal to the number of numeric rows between the start row and it, carrying its signed stress and its signed total strain |
| `CdpCurve.Reverse` | code/models/PINN/Code.py:101 | `s[::-1]` has the same length, with entry i equal to entry n-1-i of the input |
| `CdpCurve.Assemble` | code/models/PINN/Code.py:101-102 | the full curve has len(comp) + 1 + len(tens) points: the compression branch reversed, then (0, 0) at index len(comp), then the tension branch in order |
| `CdpCurve.MaxAbs` | code/models/PINN/Code.py:100 | `FC_REF_FILE` is at least abs(s) for every compression stress s and equals the abs of one of them; it is undefined exactly for an empty branch |
| `CdpCurve.AssembledCurveSigns` | code/models/PINN/Code.py:88-102 | on the assembled curve every point up to the origin has strain ≤ 0 and stress in [-FC_REF_FILE, 0], and every point from the origin on has strain and stress ≥ 0 |
| `MinMaxScaling.Denominator` | code/models/PINN/Code.py:130-131 | the denominator is never 0: it is max − min, or 1 for a constant column |
| `MinMaxScaling.NormalizeData` | code/models/PINN/Code.py:123-133 | returns a new table of the input's shape, leaving the input untouched; it fails exactly when a scaled column lies beyond the table's width; otherwise each cell of a scaled column is (v − min)/denominator and every other cell is copied |
| `MinMaxScaling.ScaleEndpoints` | code/models/PINN/Code.py:130-132 | for max ≠ min, min scales to 0 and max to 1 |
| `MinMaxScaling.ScaleConstantColumn` | code/models/PINN/Code.py:131-132 | a constant column is only shifted by its min |
| `MinMaxScaling.ScaleIntoUnitInterval` | code/models/PINN/Code.py:132 | values inside [min, max] scale into [0, 1], in the same order |
| `MinMaxScaling.UnscaleScale` | code/models/PINN/Code.py:164-165 | the unscaling v·(max − min) + min recovers every scaled value of a non-constant column, and the value of a constant one |
| `MinMaxScaling.ScaleUnscale` | code/models/PINN/Code.py:164-165 | for a non-constant column scaling undoes the unscaling |
| `MinMaxScaling.UnscaleFc` | code/models/PINN/Code.py:169 | the unscaled strength is non-negative and equals the unscaled value up to sign |
| `MinMaxScaling.UnscaleFcRecovers` | code/models/PINN/Code.py:168-169 | the unscaled `fc` of a scaled non-negative strength is that strength |
| `TwinServer.Norm` | code/server.py:20-21 | `norm` fails exactly for a missing key or a zero scale; otherwise its result times scale plus mean gives back the input |
| `TwinServer.NormOfMean` | code/server.py:20-21 | a value equal to the stored mean normalises to 0 |
| `TwinServer.Features` | code/server.py:66-73 | the six-feature input row exists exactly when all six keys can be normalised |
| `TwinServer.GridCoordinates` | code/server.py:63-64 | index 0 maps to −extent/2, index 50 to +extent/2, index 25 to 0; mirrored indices give mirrored coordinates; coordinates increase with the index |
| `TwinServer.AmplifyGrows` | code/server.py:78 | amplification by a non-negative damage keeps the prediction's sign, never shrinks its magnitude, and is the identity at zero damage |
| `TwinServer.StressField` | code/server.py:58-80 | the field has exactly (50+1)² = 2601 entries, entry k being the amplified prediction at grid point (k mod 51, k div 51) |
| `TwinServer.StressFieldRowMajor` | code/server.py:60-61 | the entry for grid point (x, y) sits at index 51·y + x: y is the outer loop, x the inner |
| `TwinServer.BuildStressField` | code/server.py:58-80 | the nested loops fail exactly when `norm` fails, and otherwise produce the field `StressField` defines |
| `TwinServer.SeqMax` | code/server.py:85 | `max_stress` is an entry of the field and no entry exceeds it |
| `TwinServer.MeanAtMostMax` | code/server.py:85-86 | `avg_stress` never exceeds `max_stress` |
| `TwinServer.DamageUpdate` | code/server.py:88-90 | the new damage is at most 1.0; from a damage of at most 1.0 it does not decrease exactly when max_stress ≥ −50000, which is exactly when the growth rate is non-negative |
| `TwinServer.BoundedAppend` | code/server.py:92 | appending to the `maxlen=10` deque yields min(len + 1, 10) entries, ending with the new sample and preceded by the most recent old entries in order |
| `TwinServer.AppendToFullEvictsOldest` | code/server.py:92 | appending to a full history drops exactly its oldest entry |
| `TwinServer.Prognose` | code/server.py:97-107 | until the history is full the prediction is the updated damage and RUL is `None`; once full the prediction is the LSTM's and RUL is present, never negative, zero exactly when the prediction is at least 0.9, and otherwise equals (0.9 − prediction)/1.0 |
| `TwinServer.Server.constructor` | code/server.py:31-33 | the server starts at time 0.0 with damage 0.05 and an empty history |
| `TwinServer.Server.Tick` | code/server.py:44-122 | one tick keeps the invariant (damage ≤ 1.0, history length min(ticks, 10), time = ticks·1.0); it fails and changes nothing exactly when `norm` would raise; otherwise it sends the pre-increment time with the field amplified by the damage at the start of the tick, updates damage and history by the law above, carries the prognosis of the new history, advances time by 1.0, and RUL is present exactly from the tenth tick on |

## Left out

- Training and inference are left out: model building, the optimiser, `train_step`, gradient tape, `model.predict`, `load_model`. These are foreign ML calls; `pinn` and `lstm` are uninterpreted function parameters.
- The MSE terms of `pinn_loss` are left out, and so are `scaling_factor` and `get_base_physics_stress`. They rely on tensor reductions and on `interp1d` extrapolation. Only the unscaling expressions of the loss are modelled.
- All I/O is left out: Google Drive, CSV/Excel reading, pickle and JSON loading, `train_test_split`, wandb logging and artifacts, matplotlib, `!pip`. The server's debug `print` is left out too.
- Cell parsing is taken as given: `Cell.text` stands for `astype(str)` and `Cell.numeric` for `pd.to_numeric(errors='coerce')`. How numbers are rendered to text and parsed back is not modelled.
- `Text.Lower` lower-cases ASCII letters only. Python's `str.lower` is full Unicode, so a header written with an upper-case `Σ` is not recognised by the model.
- The websocket transport is left out: `ws.accept`, `send_json`, `asyncio.sleep` and the infinite loop. One iteration is modelled as `Server.Tick`, and a returned `Message` stands for the JSON sent.
- The disabled image-classifier branch (`DEBUG_NO_VGG`) is not modelled. Both branches use the damage state as the crack severity, and that is what `Tick` does.
- IEEE floating point is not modelled (float32 tensors, NaN, rounding, overflow). Arithmetic is over unbounded reals.
- Output shapes of the networks are not modelled: an output too short for index `[0][1]` or `[0][0]` cannot occur in the model.
- A scaler entry without its `min`/`max` (or `mean`/`scale`) field cannot occur in the model. `Range` and `Stats` always carry both fields.
- `MinMaxScaling.NormalizeData`: on failure the returned table's contents are unspecified. Python raises there and the partly written copy is never used.
- The Unity/C# renderer is not part of this model.
