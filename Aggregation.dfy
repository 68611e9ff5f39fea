/**
  The aggregations the pages build on the classified table: the per-label
  counts of a filtered table (`value_counts`), and the per-country summary of
  the whole table (`groupby('Country Label')` with the mean of `Value` and the
  first `mode()` of the classification column).
 */
module Aggregation {
  import opened Classifier
  import opened Table
  import StringOrder

  /** The classification column of a table, in row order. */
  function LabelsOf(rows: seq<Row>): (ls: seq<Label>)
    ensures |ls| == |rows|
    ensures forall i :: 0 <= i < |rows| ==> ls[i] == rows[i].klasifikasi
  {
    seq(|rows|, i requires 0 <= i < |rows| => rows[i].klasifikasi)
  }

  /** How often a label occurs in a column. */
  function Count(ls: seq<Label>, l: Label): nat
  {
    multiset(ls)[l]
  }

  /**
    `value_counts()`: one entry per label that occurs in the column, holding
    its number of occurrences; labels that do not occur have no entry.
   */
  function ValueCounts(ls: seq<Label>): (m: map<Label, nat>)
    ensures forall l :: l in m <==> l in ls
    ensures forall l :: l in m ==> 0 < m[l] == Count(ls, l)
  {
    map l | l in ls :: Count(ls, l)
  }

  /** The count of a label in a value-counts map, zero when it has no entry. */
  function CountIn(m: map<Label, nat>, l: Label): nat
  {
    if l in m then m[l] else 0
  }

  /** The sum of all entries of a value-counts map over the five labels. */
  function Total(m: map<Label, nat>): nat
  {
    CountIn(m, Sehat) + CountIn(m, Sedang) + CountIn(m, Buruk) + CountIn(m, Beracun) + CountIn(m, TidakDiketahui)
  }

  /** The counts of the five labels add up to the length of the column. */
  lemma {:induction false} CountsCoverColumn(ls: seq<Label>)
    ensures Count(ls, Sehat) + Count(ls, Sedang) + Count(ls, Buruk) + Count(ls, Beracun) + Count(ls, TidakDiketahui) == |ls|
  {
    if ls != [] {
      var init := ls[..|ls| - 1];
      assert ls == init + [ls[|ls| - 1]];
      assert multiset(ls) == multiset(init) + multiset{ls[|ls| - 1]};
      assert forall l :: Count(ls, l) == Count(init, l) + (if l == ls[|ls| - 1] then 1 else 0);
      CountsCoverColumn(init);
    }
  }

  /** The counts the monitor page charts add up to the number of rows charted. */
  lemma CountConservation(ls: seq<Label>)
    ensures Total(ValueCounts(ls)) == |ls|
  {
    CountsCoverColumn(ls);
    var m := ValueCounts(ls);
    forall l ensures CountIn(m, l) == Count(ls, l) {
      if l !in ls {
        assert multiset(ls)[l] == 0;
      }
    }
  }

  /** The sum of the `Value` column. */
  function SumValues(rows: seq<Row>): real
  {
    if rows == [] then 0.0 else SumValues(rows[..|rows| - 1]) + rows[|rows| - 1].m.value
  }

  /** `avg` is the arithmetic mean of the `Value` column: times the row count it gives the sum. */
  ghost predicate IsMeanOf(rows: seq<Row>, avg: real)
  {
    avg * (|rows| as real) == SumValues(rows)
  }

  /** `mean()` of the `Value` column of a non-empty table. */
  function Mean(rows: seq<Row>): (avg: real)
    requires rows != []
    ensures IsMeanOf(rows, avg)
  {
    SumValues(rows) / (|rows| as real)
  }

  /** If every value lies in [lo, hi], so does their sum scaled by the row count. */
  lemma {:induction false} SumBounds(rows: seq<Row>, lo: real, hi: real)
    requires forall i :: 0 <= i < |rows| ==> lo <= rows[i].m.value <= hi
    ensures (|rows| as real) * lo <= SumValues(rows) <= (|rows| as real) * hi
  {
    if rows != [] {
      SumBounds(rows[..|rows| - 1], lo, hi);
    }
  }

  /** The mean lies between any lower and any upper bound of the values. */
  lemma MeanBounds(rows: seq<Row>, lo: real, hi: real)
    requires rows != []
    requires forall i :: 0 <= i < |rows| ==> lo <= rows[i].m.value <= hi
    ensures lo <= Mean(rows) <= hi
  {
    SumBounds(rows, lo, hi);
    assert IsMeanOf(rows, Mean(rows));
  }

  /** A non-empty table has a row of least and a row of greatest value. */
  lemma {:induction false} ValueRange(rows: seq<Row>) returns (lo: nat, hi: nat)
    requires rows != []
    ensures lo < |rows| && hi < |rows|
    ensures forall i :: 0 <= i < |rows| ==> rows[lo].m.value <= rows[i].m.value <= rows[hi].m.value
  {
    if |rows| == 1 {
      lo, hi := 0, 0;
    } else {
      lo, hi := ValueRange(rows[1..]);
      lo, hi := lo + 1, hi + 1;
      if rows[0].m.value < rows[lo].m.value {
        lo := 0;
      }
      if rows[hi].m.value < rows[0].m.value {
        hi := 0;
      }
    }
  }

  /** The labels in ascending order of their text, the order in which `mode()` lists ties. */
  const ByName: seq<Label> := [Beracun, Buruk, Sedang, Sehat, TidakDiketahui]

  /** `ByName` lists every label once, in strictly ascending order of the label text. */
  lemma ByNameOrdered()
    ensures forall l: Label :: l in ByName
    ensures forall i, j :: 0 <= i < j < |ByName| ==> StringOrder.Less(LabelName(ByName[i]), LabelName(ByName[j]))
  {
    forall l: Label ensures l in ByName {
      match l
      case Beracun => assert ByName[0] == l;
      case Buruk => assert ByName[1] == l;
      case Sedang => assert ByName[2] == l;
      case Sehat => assert ByName[3] == l;
      case TidakDiketahui => assert ByName[4] == l;
    }
    assert StringOrder.Less("Beracun", "Buruk") by {
      assert "Beracun"[1..] == "eracun" && "Buruk"[1..] == "uruk";
    }
    assert StringOrder.Less("Sedang", "Sehat") by {
      assert "Sedang"[1..] == "edang" && "Sehat"[1..] == "ehat";
      assert "edang"[1..] == "dang" && "ehat"[1..] == "hat";
    }
    assert StringOrder.Less("Buruk", "Sedang");
    assert StringOrder.Less("Sehat", "Tidak Diketahui");
    StringOrder.LessTransitive("Beracun", "Buruk", "Sedang");
    StringOrder.LessTransitive("Buruk", "Sedang", "Sehat");
    StringOrder.LessTransitive("Sedang", "Sehat", "Tidak Diketahui");
    StringOrder.LessTransitive("Beracun", "Sedang", "Sehat");
    StringOrder.LessTransitive("Buruk", "Sehat", "Tidak Diketahui");
    StringOrder.LessTransitive("Beracun", "Sehat", "Tidak Diketahui");
  }

  /**
    The position of the first candidate with the largest count: no candidate
    occurs more often, and every earlier candidate occurs strictly less often.
   */
  function MostFrequentAt(ls: seq<Label>, cands: seq<Label>): (k: nat)
    requires cands != []
    ensures k < |cands|
    ensures forall i :: 0 <= i < |cands| ==> Count(ls, cands[i]) <= Count(ls, cands[k])
    ensures forall i :: 0 <= i < k ==> Count(ls, cands[i]) < Count(ls, cands[k])
  {
    if |cands| == 1 then 0
    else
      var k := MostFrequentAt(ls, cands[1..]) + 1;
      if Count(ls, cands[k]) <= Count(ls, cands[0]) then 0 else k
  }

  /**
    `r` is the first mode of a column: it occurs, no label occurs more often,
    and every other label that occurs as often has a greater text.
   */
  ghost predicate IsFirstMode(ls: seq<Label>, r: Label)
  {
    && r in ls
    && (forall l :: Count(ls, l) <= Count(ls, r))
    && (forall l :: l != r && Count(ls, l) == Count(ls, r) ==> StringOrder.Less(LabelName(r), LabelName(l)))
  }

  /** A column has at most one first mode. */
  lemma FirstModeUnique(ls: seq<Label>, a: Label, b: Label)
    requires IsFirstMode(ls, a) && IsFirstMode(ls, b)
    ensures a == b
  {
    if a != b {
      StringOrder.LessAsymmetric(LabelName(a), LabelName(b));
    }
  }

  /**
    `mode()[0]` of a non-empty classification column: a label that occurs,
    occurs as often as any other, and has the smallest text among those that
    occur equally often.
   */
  function Mode(ls: seq<Label>): (r: Label)
    requires ls != []
    ensures IsFirstMode(ls, r)
  {
    ByNameOrdered();
    var k := MostFrequentAt(ls, ByName);
    var r := ByName[k];
    assert forall l :: Count(ls, l) <= Count(ls, r) by {
      forall l ensures Count(ls, l) <= Count(ls, r) {
        assert l in ByName;
        var i :| 0 <= i < |ByName| && ByName[i] == l;
      }
    }
    assert r in ls by {
      CountsCoverColumn(ls);
    }
    assert forall l :: l != r && Count(ls, l) == Count(ls, r) ==> StringOrder.Less(LabelName(r), LabelName(l)) by {
      forall l | l != r && Count(ls, l) == Count(ls, r)
        ensures StringOrder.Less(LabelName(r), LabelName(l))
      {
        assert l in ByName;
        var i :| 0 <= i < |ByName| && ByName[i] == l;
        assert i != k;
      }
    }
    r
  }

  /** One row of the per-country summary. */
  datatype CountrySummary = CountrySummary(countryLabel: string, averageValue: real, classification: Label)

  /**
    The summary row of one country: the mean of its values and the modal label
    of its rows, as the summary promises them.
   */
  function SummaryOf(rows: seq<Row>, country: string): (s: CountrySummary)
    requires country in SortedCountries(rows)
    ensures s.countryLabel == country
    ensures var group := Where(rows, CountryLabel, country);
            && group != []
            && IsMeanOf(group, s.averageValue)
            && IsFirstMode(LabelsOf(group), s.classification)
  {
    var group := Where(rows, CountryLabel, country);
    assert group != [] by { CountryOptionHasRows(rows, country); }
    var s := CountrySummary(country, Mean(group), Mode(LabelsOf(group)));
    s
  }

  /**
    `groupby('Country Label').agg(mean, mode()[0]).reset_index()`: one summary
    row per country, in ascending order of the country label.
   */
  function Summarize(rows: seq<Row>): (r: seq<CountrySummary>)
    ensures |r| == |SortedCountries(rows)|
    ensures forall i :: 0 <= i < |r| ==> r[i] == SummaryOf(rows, SortedCountries(rows)[i])
  {
    var cs := SortedCountries(rows);
    seq(|cs|, i requires 0 <= i < |cs| => SummaryOf(rows, cs[i]))
  }

  /** The country labels of a summary, in order. */
  function SummaryKeys(summary: seq<CountrySummary>): (ks: seq<string>)
    ensures |ks| == |summary|
    ensures forall i :: 0 <= i < |summary| ==> ks[i] == summary[i].countryLabel
  {
    seq(|summary|, i requires 0 <= i < |summary| => summary[i].countryLabel)
  }

  /** The summary's country column is the sorted country list. */
  lemma SummaryKeysAreCountries(rows: seq<Row>)
    ensures SummaryKeys(Summarize(rows)) == SortedCountries(rows)
  {
    var r := Summarize(rows);
    var ks := SummaryKeys(r);
    var cs := SortedCountries(rows);
    forall i | 0 <= i < |ks| ensures ks[i] == cs[i] {
      assert r[i] == SummaryOf(rows, cs[i]);
    }
  }

  /**
    The summary has exactly one row per distinct country label of the table,
    and its rows are in strictly ascending order of the label.
   */
  lemma SummaryOnePerCountry(rows: seq<Row>)
    ensures var ks := SummaryKeys(Summarize(rows));
            && StringOrder.StrictlySorted(ks)
            && (forall c :: c in ks <==> exists i :: 0 <= i < |rows| && rows[i].m.countryLabel == c)
            && |Summarize(rows)| == |set i | 0 <= i < |rows| :: rows[i].m.countryLabel|
  {
    SummaryKeysAreCountries(rows);
    CountryCount(rows);
  }

  /** Neither aggregation fails on an empty table: both give empty results. */
  lemma EmptyTable()
    ensures ValueCounts([]) == map[]
    ensures Summarize([]) == []
  {
  }
}
