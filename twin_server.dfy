/**
 * One iteration of the stress and damage server loop: build the stress field
 * over the beam grid from the PINN, amplify it by the current crack damage,
 * advance the damage, record the field statistics in a bounded history, and
 * from a full history derive the LSTM damage prediction and the remaining
 * useful life (RUL).
 *
 * The two networks are parameters: `pinn` maps the six normalised features
 * of one grid point to the network's stress channel (`predict(X)[0][1]`), and
 * `lstm` maps the ten most recent samples, oldest first, to its damage output
 * (`predict(seq)[0][0]`).
 */
module TwinServer {
  import opened Options
  import opened Reals

  const Resolution: nat := 50
  /** Grid points per side, `RESOLUTION + 1`. */
  const GridSide: nat := Resolution + 1
  /** Entries of one stress field, `(RESOLUTION + 1)²`. */
  const GridPoints: nat := GridSide * GridSide
  const BeamLength: real := 1050.0
  const BeamHeight: real := 300.0
  const FailureThreshold: real := 0.9
  const TimeStep: real := 1.0
  /** `maxlen` of the history deque. */
  const HistoryLen: nat := 10
  const InitialDamage: real := 0.05
  /** Stress amplification per unit of crack severity. */
  const Amplification: real := 2.5
  const BaseGrowth: real := 0.002
  const StressGrowth: real := 0.00000004

  /** The fixed load case fed to the PINN at every grid point. */
  const LoadMag: real := 50000.0
  const GlobalDeflection: real := 5.5
  const Fc: real := 25.0
  const Fy: real := 314.0

  /** The keys `norm` looks up, in feature order. */
  const FeatureKeys: seq<string> := ["x", "y", "load_mag", "global_deflection", "fc", "fy"]

  /** The stored `{"mean": .., "scale": ..}` of one feature. */
  datatype Stats = Stats(mean: real, scale: real)

  /** One history entry, `[max_stress, avg_stress]`. */
  datatype Sample = Sample(maxStress: real, avgStress: real)

  /** The damage prediction and the RUL (`None` is JSON `null`). */
  datatype Prognosis = Prognosis(damagePred: real, rul: Option<real>)

  /** The JSON message sent for one tick. */
  datatype Message = Message(time: real, stressField: seq<real>, damagePrediction: real, rul: Option<real>)

  // ---------------------------------------------------------------------------
  // Normalisation and the grid

  /** `norm(v, key)`: `None` where Python raises (missing key, zero scale). */
  function Norm(scalers: map<string, Stats>, key: string, v: real): (r: Option<real>)
    ensures r.Some? <==> key in scalers && scalers[key].scale != 0.0
    ensures r.Some? ==> r.value * scalers[key].scale + scalers[key].mean == v
  {
    if key in scalers && scalers[key].scale != 0.0
    then Some((v - scalers[key].mean) / scalers[key].scale)
    else None
  }

  /** A value equal to the stored mean normalises to 0. */
  lemma NormOfMean(scalers: map<string, Stats>, key: string)
    requires key in scalers && scalers[key].scale != 0.0
    ensures Norm(scalers, key, scalers[key].mean) == Some(0.0)
  {
  }

  /** Every feature key can be normalised. */
  predicate Usable(scalers: map<string, Stats>) {
    forall k :: k in FeatureKeys ==> k in scalers && scalers[k].scale != 0.0
  }

  /** The PINN input row of the grid point at physical position (px, py). */
  function Features(scalers: map<string, Stats>, px: real, py: real): (f: Option<seq<real>>)
    ensures f.Some? <==> Usable(scalers)
    ensures f.Some? ==> |f.value| == |FeatureKeys|
  {
    var nx := Norm(scalers, "x", px);
    var ny := Norm(scalers, "y", py);
    var nl := Norm(scalers, "load_mag", LoadMag);
    var nd := Norm(scalers, "global_deflection", GlobalDeflection);
    var nc := Norm(scalers, "fc", Fc);
    var ns := Norm(scalers, "fy", Fy);
    if nx.Some? && ny.Some? && nl.Some? && nd.Some? && nc.Some? && ns.Some?
    then Some([nx.value, ny.value, nl.value, nd.value, nc.value, ns.value])
    else None
  }

  /** Grid index `i` in `0..RESOLUTION` as a coordinate centred on the beam. */
  function PhysCoord(i: nat, extent: real): real {
    (i as real / Resolution as real - 0.5) * extent
  }

  /** The grid spans the beam symmetrically: index 0 is one end, index
      RESOLUTION the other, the middle index the centre, mirrored indices give
      mirrored coordinates, and coordinates grow with the index. */
  lemma GridCoordinates(extent: real, i: nat, j: nat)
    requires i < j <= Resolution
    ensures PhysCoord(0, extent) == -extent / 2.0
    ensures PhysCoord(Resolution, extent) == extent / 2.0
    ensures PhysCoord(Resolution / 2, extent) == 0.0
    ensures PhysCoord(Resolution - i, extent) == -PhysCoord(i, extent)
    ensures extent > 0.0 ==> PhysCoord(i, extent) < PhysCoord(j, extent)
  {
    assert Resolution / 2 == 25;
    assert PhysCoord(j, extent) - PhysCoord(i, extent) == (j - i) as real * extent / 50.0;
  }

  /** Damage amplification of a predicted stress. */
  function Amplify(base: real, severity: real): real {
    base * (1.0 + Amplification * severity)
  }

  /** Non-negative damage keeps the sign of the prediction and never shrinks
      its magnitude; zero damage leaves it as predicted. */
  lemma AmplifyGrows(base: real, severity: real)
    requires severity >= 0.0
    ensures Abs(Amplify(base, severity)) >= Abs(base)
    ensures base >= 0.0 <==> Amplify(base, severity) >= 0.0
    ensures severity == 0.0 ==> Amplify(base, severity) == base
  {
    var f := 1.0 + Amplification * severity;
    assert f >= 1.0;
    if base >= 0.0 {
      assert base * f >= base * 1.0;
    } else {
      assert -base * f >= -base * 1.0;
    }
  }

  /** The stress reported at grid point (x, y). */
  function PointStress(scalers: map<string, Stats>, pinn: seq<real> -> real, severity: real, x: nat, y: nat): real
    requires Usable(scalers)
  {
    var f := Features(scalers, PhysCoord(x, BeamLength), PhysCoord(y, BeamHeight)).value;
    Amplify(pinn(f), severity)
  }

  /** The whole field: entry k is grid point (k mod (RESOLUTION+1), k div (RESOLUTION+1)). */
  function StressField(scalers: map<string, Stats>, pinn: seq<real> -> real, severity: real): (f: seq<real>)
    requires Usable(scalers)
    ensures |f| == GridPoints == 2601
    ensures forall k :: 0 <= k < |f| ==> f[k] == PointStress(scalers, pinn, severity, k % GridSide, k / GridSide)
  {
    seq(GridPoints, k requires 0 <= k < GridPoints => PointStress(scalers, pinn, severity, k % GridSide, k / GridSide))
  }

  lemma RowMajor(x: nat, y: nat)
    requires x < GridSide && y < GridSide
    ensures y * GridSide + x < GridPoints
    ensures (y * GridSide + x) % GridSide == x && (y * GridSide + x) / GridSide == y
  {
  }

  /** The field is laid out row by row: y outer, x inner. */
  lemma StressFieldRowMajor(scalers: map<string, Stats>, pinn: seq<real> -> real, severity: real, x: nat, y: nat)
    requires Usable(scalers)
    requires x < GridSide && y < GridSide
    ensures y * GridSide + x < |StressField(scalers, pinn, severity)|
    ensures StressField(scalers, pinn, severity)[y * GridSide + x] == PointStress(scalers, pinn, severity, x, y)
  {
    RowMajor(x, y);
  }

  /** The nested loops over the grid; `None` where `norm` raises. */
  method BuildStressField(scalers: map<string, Stats>, pinn: seq<real> -> real, severity: real)
    returns (field: Option<seq<real>>)
    ensures field.None? <==> !Usable(scalers)
    ensures field.Some? ==> field.value == StressField(scalers, pinn, severity)
  {
    var out: seq<real> := [];
    var y := 0;
    while y < GridSide
      invariant 0 <= y <= GridSide
      invariant |out| == y * GridSide
      invariant |out| > 0 ==> Usable(scalers) && forall k :: 0 <= k < |out| ==>
                  out[k] == PointStress(scalers, pinn, severity, k % GridSide, k / GridSide)
    {
      var x := 0;
      while x < GridSide
        invariant 0 <= x <= GridSide
        invariant |out| == y * GridSide + x
        invariant |out| > 0 ==> Usable(scalers) && forall k :: 0 <= k < |out| ==>
                    out[k] == PointStress(scalers, pinn, severity, k % GridSide, k / GridSide)
      {
        var physX := PhysCoord(x, BeamLength);
        var physY := PhysCoord(y, BeamHeight);
        var features := Features(scalers, physX, physY);
        if features.None? {
          return None;
        }
        var baseStress := pinn(features.value);
        var stress := Amplify(baseStress, severity);
        RowMajor(x, y);
        out := out + [stress];
        x := x + 1;
      }
      y := y + 1;
    }
    field := Some(out);
  }

  // ---------------------------------------------------------------------------
  // Field statistics and damage

  /** `np.max` of a non-empty field. */
  function SeqMax(s: seq<real>): (m: real)
    requires |s| > 0
    ensures forall i :: 0 <= i < |s| ==> s[i] <= m
    ensures exists i :: 0 <= i < |s| && s[i] == m
  {
    if |s| == 1 then s[0]
    else
      var rest := SeqMax(s[1..]);
      assert forall i :: 1 <= i < |s| ==> s[i] == s[1..][i - 1];
      if s[0] >= rest then s[0] else rest
  }

  function Sum(s: seq<real>): real {
    if s == [] then 0.0 else s[0] + Sum(s[1..])
  }

  /** `np.mean` of a non-empty field. */
  function Mean(s: seq<real>): real
    requires |s| > 0
  {
    Sum(s) / |s| as real
  }

  lemma {:induction false} SumAtMost(s: seq<real>, m: real)
    requires forall i :: 0 <= i < |s| ==> s[i] <= m
    ensures Sum(s) <= |s| as real * m
  {
    if s != [] {
      SumAtMost(s[1..], m);
    }
  }

  /** The average stress of a sample never exceeds its maximum stress. */
  lemma MeanAtMostMax(s: seq<real>)
    requires |s| > 0
    ensures Mean(s) <= SeqMax(s)
  {
    var m := SeqMax(s);
    var total := Sum(s);
    var n := |s| as real;
    SumAtMost(s, m);
    assert total <= n * m;
    DivAtMost(total, n, m);
    assert Mean(s) == total / n;
  }

  lemma DivAtMost(a: real, n: real, m: real)
    requires n > 0.0 && a <= n * m
    ensures a / n <= m
  {
    assert a / n - m == (a - n * m) / n;
  }

  /** `0.002 + 0.00000004 * max_stress`. */
  function GrowthRate(maxStress: real): real {
    BaseGrowth + StressGrowth * maxStress
  }

  /** The damage evolution law: grow by the rate, capped at 1.0. The result
      never exceeds 1.0, and from a damage of at most 1.0 it does not decrease
      exactly when max_stress >= -50000, the point at which the rate turns
      negative. */
  function DamageUpdate(damage: real, maxStress: real): (d: real)
    ensures d <= 1.0
    ensures damage <= 1.0 ==> (d >= damage <==> maxStress >= -50000.0)
    ensures GrowthRate(maxStress) >= 0.0 <==> maxStress >= -50000.0
  {
    var next := damage + GrowthRate(maxStress);
    if next < 1.0 then next else 1.0
  }

  // ---------------------------------------------------------------------------
  // History and prognosis

  /** `history.append(sample)` on a deque with `maxlen=10`. The result holds at
      most ten entries; it ends with the new sample, preceded by the most recent
      entries of the old history in their order (the oldest one dropped when
      the history was full). */
  function BoundedAppend(history: seq<Sample>, sample: Sample): (r: seq<Sample>)
    ensures |r| == if |history| < HistoryLen then |history| + 1 else HistoryLen
    ensures r[|r| - 1] == sample
    ensures r[..|r| - 1] == history[|history| - (|r| - 1)..]
  {
    if |history| < HistoryLen then history + [sample]
    else history[|history| - HistoryLen + 1..] + [sample]
  }

  /** Appending to a full history evicts exactly its oldest entry. */
  lemma AppendToFullEvictsOldest(history: seq<Sample>, sample: Sample)
    requires |history| == HistoryLen
    ensures BoundedAppend(history, sample) == history[1..] + [sample]
  {
  }

  /** The damage prediction and RUL: until the history is full the prediction is
      the damage state and there is no RUL; once full the prediction is the
      LSTM's, and the RUL is the non-negative time left before the prediction
      reaches the failure threshold, zero exactly when it already has. */
  function Prognose(history: seq<Sample>, damage: real, lstm: seq<Sample> -> real): (p: Prognosis)
    ensures |history| != HistoryLen ==> p.damagePred == damage && p.rul.None?
    ensures |history| == HistoryLen ==> p.damagePred == lstm(history) && p.rul.Some?
    ensures p.rul.Some? ==>
      && p.rul.value >= 0.0
      && (p.rul.value == 0.0 <==> p.damagePred >= FailureThreshold)
      && (p.damagePred < FailureThreshold ==> p.damagePred + p.rul.value * TimeStep == FailureThreshold)
  {
    if |history| == HistoryLen then
      var pred := lstm(history);
      if pred < FailureThreshold
      then Prognosis(pred, Some((FailureThreshold - pred) / TimeStep))
      else Prognosis(pred, Some(0.0))
    else Prognosis(damage, None)
  }

  // ---------------------------------------------------------------------------
  // The server state

  class Server {
    var time: real
    var damageState: real
    var history: seq<Sample>
    /** Ticks completed so far. */
    ghost var ticks: nat

    ghost predicate Valid()
      reads this
    {
      && time == ticks as real * TimeStep
      && damageState <= 1.0
      && |history| == if ticks < HistoryLen then ticks else HistoryLen
    }

    constructor ()
      ensures Valid()
      ensures ticks == 0 && time == 0.0 && damageState == InitialDamage && history == []
    {
      time := 0.0;
      damageState := InitialDamage;
      history := [];
      ticks := 0;
    }

    /** One iteration of the loop. `None` where the grid build raises, in which
        case nothing has changed. The crack severity is the damage state at the
        start of the tick (the image-based branch is not active and would use
        the same value). */
    method Tick(scalers: map<string, Stats>, pinn: seq<real> -> real, lstm: seq<Sample> -> real)
      returns (msg: Option<Message>)
      requires Valid()
      modifies this
      ensures Valid()
      ensures msg.None? <==> !Usable(scalers)
      ensures msg.None? ==>
        time == old(time) && damageState == old(damageState) && history == old(history) && ticks == old(ticks)
      ensures msg.Some? ==>
        var field := StressField(scalers, pinn, old(damageState));
        var sample := Sample(SeqMax(field), Mean(field));
        var p := Prognose(history, damageState, lstm);
        && damageState == DamageUpdate(old(damageState), sample.maxStress)
        && history == BoundedAppend(old(history), sample)
        && msg.value == Message(old(time), field, p.damagePred, p.rul)
        && time == old(time) + TimeStep
        && ticks == old(ticks) + 1
      ensures msg.Some? ==> (msg.value.rul.Some? <==> ticks >= HistoryLen)
    {
      var crackSeverity := damageState;
      var built := BuildStressField(scalers, pinn, crackSeverity);
      if built.None? {
        return None;
      }
      var field := built.value;
      var maxStress := SeqMax(field);
      var avgStress := Mean(field);
      damageState := DamageUpdate(damageState, maxStress);
      history := BoundedAppend(history, Sample(maxStress, avgStress));
      var p := Prognose(history, damageState, lstm);
      msg := Some(Message(time, field, p.damagePred, p.rul));
      time := time + TimeStep;
      ticks := ticks + 1;
    }
  }
}
