/**
  The decisions two pages of the dashboard take on top of the classifier and
  the table: the Test Sensor page, which classifies one MQ135 reading in ppm,
  and the Air Quality Check page, which classifies the mean value of a
  country's rows with the unit of the country's first row.
 */
module Pages {
  import opened Classifier
  import opened Table
  import opened Aggregation

  /** What the Test Sensor page shows for a reading: its label and the advice chosen for it. */
  datatype SensorReport = SensorReport(classification: Label, advice: Advice)

  /**
    The Test Sensor page: the reading is always classified as ppm, so it always
    gets a graded label, the one whose severity is the number of ppm band edges
    the reading has reached, and always some advice; the habits text exactly
    below the Buruk edge of 0.005 ppm.
   */
  function TestSensor(mq135: real): (r: SensorReport)
    ensures r.classification.Graded() && r.advice != NoAdvice
    ensures BandsFor(Ppm).Some? && Severity(r.classification) == EdgesReached(mq135, BandsFor(Ppm).value)
    ensures r.advice == HealthyHabits <==> mq135 < 0.005
  {
    var verdict := Classify(mq135, Ppm);
    SensorReport(verdict, HealthTips(LabelName(verdict)))
  }

  /** What the Air Quality Check page reports for a country. */
  datatype CheckResult = DataNotAvailable | Checked(classification: Label, advice: Advice)

  /**
    The Air Quality Check page: "data not available" exactly when the country
    has no rows; otherwise the label of the mean value in the unit of the
    country's first row, the fallback label exactly when that unit is not
    recognised; the habits advice for Sehat and Sedang, the harm and precautions
    advice for Buruk and Beracun, and no advice for the fallback label.
   */
  function AirQualityCheck(rows: seq<Row>, country: string): (r: CheckResult)
    ensures r.DataNotAvailable? <==> forall i :: 0 <= i < |rows| ==> rows[i].m.countryLabel != country
    ensures r.Checked? ==>
              var group := Where(rows, CountryLabel, country);
              && group != []
              && r.classification == Classify(Mean(group), group[0].m.unit)
              && (r.classification == TidakDiketahui <==> BandsFor(group[0].m.unit).None?)
              && (r.advice == NoAdvice <==> r.classification == TidakDiketahui)
              && (r.advice == HealthyHabits <==> r.classification == Sehat || r.classification == Sedang)
              && (r.advice == HarmAndPrecautions <==> r.classification == Buruk || r.classification == Beracun)
  {
    var group := Where(rows, CountryLabel, country);
    if group == [] then
      assert forall i :: 0 <= i < |rows| ==> rows[i].m.countryLabel != country by {
        forall i | 0 <= i < |rows| ensures rows[i].m.countryLabel != country {
          assert rows[i] in rows;
        }
      }
      DataNotAvailable
    else
      assert exists i :: 0 <= i < |rows| && rows[i].m.countryLabel == country by {
        assert group[0] in rows;
        var i :| 0 <= i < |rows| && rows[i] == group[0];
      }
      var verdict := Classify(Mean(group), group[0].m.unit);
      HealthTipsBySeverity(verdict);
      Checked(verdict, HealthTips(LabelName(verdict)))
  }

  /**
    When every row of a country is in one recognised unit and in one band, the
    check reports that band: the mean of values of one band stays in the band.
   */
  lemma CheckUniformCountry(rows: seq<Row>, country: string, unit: string, l: Label)
    requires BandsFor(unit).Some?
    requires exists i :: 0 <= i < |rows| && rows[i].m.countryLabel == country
    requires forall i :: 0 <= i < |rows| && rows[i].m.countryLabel == country ==>
               rows[i].m.unit == unit && Classify(rows[i].m.value, unit) == l
    ensures AirQualityCheck(rows, country) == Checked(l, HealthTips(LabelName(l)))
  {
    var group := Where(rows, CountryLabel, country);
    var k :| 0 <= k < |rows| && rows[k].m.countryLabel == country;
    assert rows[k] in group;
    assert forall x :: x in group ==> x.m.unit == unit && Classify(x.m.value, unit) == l by {
      forall x | x in group ensures x.m.unit == unit && Classify(x.m.value, unit) == l {
        var i :| 0 <= i < |rows| && rows[i] == x;
      }
    }
    var lo, hi := ValueRange(group);
    assert group[lo] in group && group[hi] in group && group[0] in group;
    MeanBounds(group, group[lo].m.value, group[hi].m.value);
    ClassifyConvex(unit, group[lo].m.value, Mean(group), group[hi].m.value);
  }
}
