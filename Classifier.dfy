/**
  The air-quality classifier of the dashboard: a measured concentration and its
  unit are mapped to one of four severity labels, or to the fallback label when
  the unit is not one the dashboard knows. The labels keep the dashboard's own
  Indonesian names; `LabelName` gives the exact text the page shows.
 */
module Classifier {
  import opened Wrappers

  /** The five labels, in the order of increasing severity, then the fallback. */
  datatype Label = Sehat | Sedang | Buruk | Beracun | TidakDiketahui
  {
    /** True for the four labels of the severity scale. */
    predicate Graded() { !TidakDiketahui? }
  }

  /** Position on the severity scale: Sehat 0, Sedang 1, Buruk 2, Beracun 3. */
  function Severity(l: Label): (n: nat)
    requires l.Graded()
    ensures n <= 3
  {
    match l
    case Sehat => 0
    case Sedang => 1
    case Buruk => 2
    case Beracun => 3
  }

  /** The text of a label as the dashboard stores it in its classification column. */
  function LabelName(l: Label): string
  {
    match l
    case Sehat => "Sehat"
    case Sedang => "Sedang"
    case Buruk => "Buruk"
    case Beracun => "Beracun"
    case TidakDiketahui => "Tidak Diketahui"
  }

  const Ppm: string := "ppm"
  const MicrogramsPerCubicMetre: string := "µg/m³"

  /**
    The lower edges of the Sedang, Buruk and Beracun bands of a unit. Every band
    is half-open: it contains its lower edge and excludes the next band's.
   */
  datatype Bands = Bands(sedang: real, buruk: real, beracun: real)

  /** The bands of the two units the dashboard recognises; None for any other unit. */
  function BandsFor(unit: string): (b: Option<Bands>)
    ensures b.Some? ==> 0.0 < b.value.sedang < b.value.buruk < b.value.beracun
  {
    if unit == Ppm then Some(Bands(0.001, 0.005, 0.010))
    else if unit == MicrogramsPerCubicMetre then Some(Bands(50.0, 100.0, 150.0))
    else None
  }

  /** How many band edges a value has reached: a reference for the severity of the value. */
  function EdgesReached(value: real, b: Bands): nat
  {
    (if b.sedang <= value then 1 else 0)
    + (if b.buruk <= value then 1 else 0)
    + (if b.beracun <= value then 1 else 0)
  }

  /**
    The classifier itself, as an if/elif chain per unit. Its contract ties it to
    the band table: the fallback label exactly for an unrecognised unit, and
    otherwise the severity equals the number of band edges the value has reached.
   */
  function Classify(value: real, unit: string): (r: Label)
    ensures r == TidakDiketahui <==> BandsFor(unit).None?
    ensures BandsFor(unit).Some? ==> r.Graded() && Severity(r) == EdgesReached(value, BandsFor(unit).value)
  {
    if unit == Ppm then
      if value < 0.001 then Sehat
      else if value < 0.005 then Sedang
      else if value < 0.010 then Buruk
      else Beracun
    else if unit == MicrogramsPerCubicMetre then
      if value < 50.0 then Sehat
      else if value < 100.0 then Sedang
      else if value < 150.0 then Buruk
      else Beracun
    else TidakDiketahui
  }

  /** The ppm bands written out, both directions of each band. */
  lemma PpmBands(v: real)
    ensures Classify(v, Ppm) == Sehat <==> v < 0.001
    ensures Classify(v, Ppm) == Sedang <==> 0.001 <= v < 0.005
    ensures Classify(v, Ppm) == Buruk <==> 0.005 <= v < 0.010
    ensures Classify(v, Ppm) == Beracun <==> 0.010 <= v
  {
  }

  /** The µg/m³ bands written out, both directions of each band. */
  lemma MicrogramBands(v: real)
    ensures Classify(v, MicrogramsPerCubicMetre) == Sehat <==> v < 50.0
    ensures Classify(v, MicrogramsPerCubicMetre) == Sedang <==> 50.0 <= v < 100.0
    ensures Classify(v, MicrogramsPerCubicMetre) == Buruk <==> 100.0 <= v < 150.0
    ensures Classify(v, MicrogramsPerCubicMetre) == Beracun <==> 150.0 <= v
  {
  }

  /** Any unit other than the two recognised ones gives the fallback label, whatever the value. */
  lemma UnknownUnit(v: real, unit: string)
    requires unit != Ppm && unit != MicrogramsPerCubicMetre
    ensures Classify(v, unit) == TidakDiketahui
  {
  }

  /** Edge values fall into the higher band. */
  lemma BoundaryValues()
    ensures Classify(0.001, Ppm) == Sedang && Classify(0.0009999, Ppm) == Sehat
    ensures Classify(0.010, Ppm) == Beracun
    ensures Classify(49.999, MicrogramsPerCubicMetre) == Sehat
    ensures Classify(50.0, MicrogramsPerCubicMetre) == Sedang
    ensures Classify(150.0, MicrogramsPerCubicMetre) == Beracun
    ensures Classify(10.0, "mg/L") == TidakDiketahui
  {
  }

  /** Within a recognised unit a larger value is never classified as less severe. */
  lemma ClassifyMonotone(unit: string, v1: real, v2: real)
    requires BandsFor(unit).Some?
    requires v1 <= v2
    ensures Severity(Classify(v1, unit)) <= Severity(Classify(v2, unit))
  {
  }

  /** Each band is an interval: a value between two values of one label has that label. */
  lemma ClassifyConvex(unit: string, lo: real, v: real, hi: real)
    requires BandsFor(unit).Some?
    requires lo <= v <= hi
    requires Classify(lo, unit) == Classify(hi, unit)
    ensures Classify(v, unit) == Classify(lo, unit)
  {
    ClassifyMonotone(unit, lo, v);
    ClassifyMonotone(unit, v, hi);
  }

  /** The three outcomes of the health-tips selector; the prose itself is not modelled. */
  datatype Advice = HealthyHabits | HarmAndPrecautions | NoAdvice

  /**
    The health-tips selector; like the dashboard's, it takes the label's text.
    The text of a mild label gets the habits text, the text of a severe label
    the harm and precautions text, and any other text nothing.
   */
  function HealthTips(classification: string): (a: Advice)
    ensures a == HealthyHabits <==> exists l: Label :: l.Graded() && Severity(l) <= 1 && LabelName(l) == classification
    ensures a == HarmAndPrecautions <==> exists l: Label :: l.Graded() && 2 <= Severity(l) && LabelName(l) == classification
  {
    if classification in ["Sehat", "Sedang"] then
      assert classification == LabelName(Sehat) || classification == LabelName(Sedang);
      HealthyHabits
    else if classification in ["Buruk", "Beracun"] then
      assert classification == LabelName(Buruk) || classification == LabelName(Beracun);
      HarmAndPrecautions
    else NoAdvice
  }

  /**
    The selector read on the severity scale: the two mild labels get the habits
    text, the two severe ones the harm and precautions text, the fallback nothing.
   */
  lemma HealthTipsBySeverity(l: Label)
    ensures HealthTips(LabelName(l)) == HealthyHabits <==> l.Graded() && Severity(l) <= 1
    ensures HealthTips(LabelName(l)) == HarmAndPrecautions <==> l.Graded() && 2 <= Severity(l)
    ensures HealthTips(LabelName(l)) == NoAdvice <==> l == TidakDiketahui
  {
  }

  /** A text that is not one of the four graded label names gets no advice. */
  lemma HealthTipsOtherText(s: string)
    requires forall l: Label :: l.Graded() ==> s != LabelName(l)
    ensures HealthTips(s) == NoAdvice
  {
    assert s != LabelName(Sehat) && s != LabelName(Sedang);
    assert s != LabelName(Buruk) && s != LabelName(Beracun);
  }
}
