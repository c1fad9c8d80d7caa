/** Weight recording: normalisation of imperial entries to kilograms and the
    body-mass index, computed against a fixed height. Arithmetic is exact. */
module Weights {
  import opened Schema
  import Query

  datatype MeasurementSys = Metric | Imperial

  /** Body of a weight entry. */
  datatype WeightIn = WeightIn(weight: real, weightTime: int, unit: MeasurementSys)

  /** Kilograms per pound. */
  const KgPerLb: real := 0.45359237

  /** The height in metres every BMI is computed against, whatever the
      user's stored height. */
  const FixedHeight: real := 1.72

  /** The stored weight and unit of an entry: pounds become kilograms and the
      unit becomes "kgs"; a metric entry keeps its weight and its "metric". */
  function Normalize(entry: WeightIn): (r: (real, string))
    ensures entry.unit == Imperial ==> r.0 == entry.weight * KgPerLb && r.1 == "kgs"
    ensures entry.unit == Metric ==> r.0 == entry.weight && r.1 == "metric"
  {
    match entry.unit
    case Imperial => (entry.weight * KgPerLb, "kgs")
    case Metric => (entry.weight, "metric")
  }

  /** `calculate_bmi`: weight over the square of the fixed height. */
  function CalculateBmi(kg: real): (bmi: real)
    ensures bmi * (FixedHeight * FixedHeight) == kg
    ensures kg >= 0.0 ==> bmi >= 0.0
  {
    kg / (FixedHeight * FixedHeight)
  }

  /** A heavier weight always has the larger BMI. */
  lemma BmiStrictlyIncreasing(a: real, b: real)
    requires a < b
    ensures CalculateBmi(a) < CalculateBmi(b)
  {
  }

  /** `user_weight_in`: stores one entry for the user with its weight
      normalised and the BMI of the normalised weight. */
  function UserWeightIn(db: Db, entry: WeightIn, userId: int): (r: (Db, DbWeight))
    ensures r.0.weights == db.weights + [r.1]
    ensures r.0.users == db.users && r.0.fasts == db.fasts
    ensures r.1.userId == userId && r.1.weightTime == entry.weightTime
    ensures (r.1.weight, r.1.unit) == Normalize(entry)
    ensures r.1.bmi == CalculateBmi(r.1.weight)
    ensures forall w :: w in db.weights ==> w.id < r.1.id
  {
    var (kg, unit) := Normalize(entry);
    var id := Query.NextId(db.weights, (w: DbWeight) => w.id);
    var row := DbWeight(id, entry.weightTime, kg, unit, CalculateBmi(kg), userId);
    (db.(weights := db.weights + [row]), row)
  }

  /** An entry of `w` pounds has the BMI of an entry of `w * 0.45359237`
      kilograms, and neither depends on the stored users. */
  lemma ImperialBmiMatchesMetric(db: Db, db': Db, w: real, t: int, userId: int)
    ensures UserWeightIn(db, WeightIn(w, t, Imperial), userId).1.bmi
         == UserWeightIn(db', WeightIn(w * KgPerLb, t, Metric), userId).1.bmi
  {
  }
}
