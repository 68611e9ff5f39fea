/**
  Worked examples on small tables: the mean of a group, the tie-break of the
  modal label, and a three-row table taken through classification, counting
  and the per-country summary.
 */
module Scenarios {
  import opened Classifier
  import opened Table
  import opened Aggregation
  import StringOrder

  /** A classified row of the given country, value and unit; the other columns are left empty. */
  function Sample(country: string, value: real, unit: string): (r: Row)
    ensures WellClassified([r])
  {
    Row(Measurement(country, "", "", "", value, unit), Classify(value, unit))
  }

  /** The mean of the values 10, 20 and 30 is 20. */
  lemma MeanOfThree()
    ensures Mean([Sample("A", 10.0, Ppm), Sample("A", 20.0, Ppm), Sample("A", 30.0, Ppm)]) == 20.0
  {
    var rows := [Sample("A", 10.0, Ppm), Sample("A", 20.0, Ppm), Sample("A", 30.0, Ppm)];
    assert rows[..2][..1][..0] == [];
    assert SumValues(rows[..2][..1]) == 10.0;
    assert SumValues(rows[..2]) == 30.0;
    assert SumValues(rows) == 60.0;
    assert IsMeanOf(rows, Mean(rows));
  }

  /**
    When exactly two labels occur, equally often, the modal label is the one
    with the smaller text.
   */
  lemma ModeOfTie(ls: seq<Label>, a: Label, b: Label)
    requires a != b && a in ls
    requires Count(ls, a) == Count(ls, b)
    requires forall l :: l != a && l != b ==> Count(ls, l) == 0
    requires StringOrder.Less(LabelName(a), LabelName(b))
    ensures Mode(ls) == a
  {
    assert IsFirstMode(ls, a);
    FirstModeUnique(ls, Mode(ls), a);
  }

  /** On a tie Buruk beats Sehat even when Sehat comes first. */
  lemma ModeTieSehatFirst(ls: seq<Label>)
    requires ls == [Sehat, Buruk]
    ensures Mode(ls) == Buruk
  {
    ByNameOrdered();
    assert ByName[1] == Buruk && ByName[3] == Sehat;
    assert multiset(ls) == multiset{Buruk, Sehat};
    assert Count(ls, Buruk) == 1 == Count(ls, Sehat);
    assert forall l :: l != Buruk && l != Sehat ==> Count(ls, l) == 0;
    ModeOfTie(ls, Buruk, Sehat);
  }

  /** On a two-way tie with Buruk first, Buruk is the modal label. */
  lemma ModeTieBurukFirst(ls: seq<Label>)
    requires ls == [Buruk, Sehat, Buruk, Sehat]
    ensures Mode(ls) == Buruk
  {
    ByNameOrdered();
    assert ByName[1] == Buruk && ByName[3] == Sehat;
    var half := [Buruk, Sehat];
    assert ls == half + half;
    assert multiset(half) == multiset{Buruk, Sehat};
    assert multiset(ls) == multiset(half) + multiset(half);
    assert Count(ls, Buruk) == 2 == Count(ls, Sehat);
    assert forall l :: l != Buruk && l != Sehat ==> Count(ls, l) == 0;
    ModeOfTie(ls, Buruk, Sehat);
  }

  /** The three-row table of the example below. */
  ghost predicate IsThreeRowTable(rows: seq<Row>)
  {
    && |rows| == 3
    && WellClassified(rows)
    && rows[0].m.countryLabel == "A" && rows[0].m.value == 0.0005 && rows[0].m.unit == Ppm
    && rows[1].m.countryLabel == "A" && rows[1].m.value == 0.008 && rows[1].m.unit == Ppm
    && rows[2].m.countryLabel == "B" && rows[2].m.value == 200.0 && rows[2].m.unit == MicrogramsPerCubicMetre
  }

  /** Its country list is A then B. */
  lemma ThreeRowCountries(rows: seq<Row>)
    requires IsThreeRowTable(rows)
    ensures SortedCountries(rows) == ["A", "B"]
  {
    var cs := SortedCountries(rows);
    assert StringOrder.Less("A", "B");
    assert StringOrder.StrictlySorted(["A", "B"]);
    assert forall c :: c in cs <==> c in ["A", "B"] by {
      assert rows[0].m.countryLabel == "A" && rows[2].m.countryLabel == "B";
    }
    StringOrder.StrictlySortedUnique(cs, ["A", "B"]);
  }

  /** The mean of one value is that value. */
  lemma MeanOfOne(rows: seq<Row>)
    requires |rows| == 1
    ensures Mean(rows) == rows[0].m.value
  {
    assert rows[..0] == [];
    assert SumValues(rows) == rows[0].m.value;
    assert IsMeanOf(rows, Mean(rows));
  }

  /** The mean of two values is half their sum. */
  lemma MeanOfTwo(rows: seq<Row>)
    requires |rows| == 2
    ensures Mean(rows) == (rows[0].m.value + rows[1].m.value) / 2.0
  {
    assert rows[..1] == [rows[0]] && rows[..1][..0] == [];
    assert SumValues(rows[..1]) == rows[0].m.value;
    assert SumValues(rows) == rows[0].m.value + rows[1].m.value;
    assert IsMeanOf(rows, Mean(rows));
  }

  /** The mode of a single label is that label. */
  lemma ModeOfOne(ls: seq<Label>)
    requires |ls| == 1
    ensures Mode(ls) == ls[0]
  {
    assert ls == [ls[0]];
    assert multiset(ls) == multiset{ls[0]};
    assert forall l :: l != ls[0] ==> Count(ls, l) == 0;
    assert IsFirstMode(ls, ls[0]);
    FirstModeUnique(ls, Mode(ls), ls[0]);
  }

  /** Country A has the first two rows. */
  lemma ThreeRowGroupA(rows: seq<Row>)
    requires IsThreeRowTable(rows)
    ensures Where(rows, CountryLabel, "A") == rows[..2]
  {
    assert rows[1..][1..][1..] == [];
    assert Where(rows[1..][1..], CountryLabel, "A") == [];
    assert Where(rows[1..], CountryLabel, "A") == [rows[1]];
  }

  /** Country B has the last row. */
  lemma ThreeRowGroupB(rows: seq<Row>)
    requires IsThreeRowTable(rows)
    ensures Where(rows, CountryLabel, "B") == rows[2..]
  {
    assert rows[1..][1..][1..] == [];
    assert Where(rows[1..][1..], CountryLabel, "B") == [rows[2]];
    assert Where(rows[1..], CountryLabel, "B") == [rows[2]];
  }

  /** Country A: mean 0.00425, and the tie between Sehat and Buruk goes to Buruk. */
  lemma ThreeRowCountryA(rows: seq<Row>)
    requires IsThreeRowTable(rows)
    ensures "A" in SortedCountries(rows)
    ensures SummaryOf(rows, "A") == CountrySummary("A", 0.00425, Buruk)
  {
    ThreeRowCountries(rows);
    var group := Where(rows, CountryLabel, "A");
    ThreeRowGroupA(rows);
    MeanOfTwo(group);
    var ls := LabelsOf(group);
    assert ls == [Sehat, Buruk];
    ModeTieSehatFirst(ls);
  }

  /** Country B: its one row gives mean 200 and Beracun. */
  lemma ThreeRowCountryB(rows: seq<Row>)
    requires IsThreeRowTable(rows)
    ensures "B" in SortedCountries(rows)
    ensures SummaryOf(rows, "B") == CountrySummary("B", 200.0, Beracun)
  {
    ThreeRowCountries(rows);
    var group := Where(rows, CountryLabel, "B");
    ThreeRowGroupB(rows);
    MeanOfOne(group);
    var ls := LabelsOf(group);
    ModeOfOne(ls);
    assert ls[0] == Beracun;
  }

  /** A column of three different labels counts each of them once. */
  lemma ThreeRowCounts(ls: seq<Label>)
    requires ls == [Sehat, Buruk, Beracun]
    ensures ValueCounts(ls) == map[Sehat := 1, Buruk := 1, Beracun := 1]
  {
    var m := ValueCounts(ls);
    assert multiset(ls) == multiset{Sehat, Buruk, Beracun};
    assert m.Keys == {Sehat, Buruk, Beracun} by {
      assert ls[0] == Sehat && ls[1] == Buruk && ls[2] == Beracun;
    }
    assert m[Sehat] == 1 && m[Buruk] == 1 && m[Beracun] == 1;
  }

  /**
    Two rows of country A (0.0005 and 0.008 ppm) and one of country B
    (200 µg/m³): the labels are Sehat, Buruk and Beracun, each counted once,
    and the summary has A with mean 0.00425 and the tied label Buruk, then B
    with mean 200 and Beracun.
   */
  lemma ThreeRowTable(rows: seq<Row>)
    requires IsThreeRowTable(rows)
    ensures LabelsOf(rows) == [Sehat, Buruk, Beracun]
    ensures ValueCounts(LabelsOf(rows)) == map[Sehat := 1, Buruk := 1, Beracun := 1]
    ensures Summarize(rows) == [CountrySummary("A", 0.00425, Buruk), CountrySummary("B", 200.0, Beracun)]
  {
    var ls := LabelsOf(rows);
    assert ls == [Sehat, Buruk, Beracun];
    ThreeRowCounts(ls);
    ThreeRowCountries(rows);
    ThreeRowCountryA(rows);
    ThreeRowCountryB(rows);
  }
}
