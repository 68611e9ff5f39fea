/**
  The dashboard's in-memory table: the rows read from the CSV, the
  classification column added to them once after loading, the row filters on
  `Country Label` and `City`, and the lists of distinct keys the pages offer.
 */
module Table {
  import opened Wrappers
  import opened Classifier
  import StringOrder

  /** One CSV row: `Country Label`, `City`, `Location`, `Pollutant`, `Value`, `Unit`. */
  datatype Measurement = Measurement(
    countryLabel: string,
    city: string,
    location: string,
    pollutant: string,
    value: real,
    unit: string)

  /** A row once the `Klasifikasi Kualitas Udara` column exists. */
  datatype Row = Row(m: Measurement, klasifikasi: Label)

  /** Every row carries the label its own value and unit classify to. */
  ghost predicate WellClassified(rows: seq<Row>)
  {
    forall i :: 0 <= i < |rows| ==> rows[i].klasifikasi == Classify(rows[i].m.value, rows[i].m.unit)
  }

  /**
    The row-wise application of the classifier: one label per row, the label of
    row i computed from row i's value and unit alone.
   */
  method ClassifyRows(rows: seq<Measurement>) returns (column: seq<Label>)
    ensures |column| == |rows|
    ensures forall i :: 0 <= i < |rows| ==> column[i] == Classify(rows[i].value, rows[i].unit)
  {
    var a := new Label[|rows|];
    for i := 0 to |rows|
      invariant forall k :: 0 <= k < i ==> a[k] == Classify(rows[k].value, rows[k].unit)
    {
      a[i] := Classify(rows[i].value, rows[i].unit);
    }
    column := a[..];
  }

  /** The loaded table; the classification column is absent until it is added. */
  class DataFrame {
    var measurements: seq<Measurement>
    var klasifikasi: Option<seq<Label>>

    /** The table as the CSV reader hands it over. */
    constructor (rows: seq<Measurement>)
      ensures measurements == rows && klasifikasi == None
    {
      measurements := rows;
      klasifikasi := None;
    }

    /** The column is present and has one entry per row. */
    predicate HasClassification()
      reads this
    {
      klasifikasi.Some? && |klasifikasi.value| == |measurements|
    }

    /** The table's rows joined with the classification column. */
    function Rows(): (r: seq<Row>)
      reads this
      requires HasClassification()
      ensures |r| == |measurements|
      ensures forall i :: 0 <= i < |r| ==> r[i].m == measurements[i] && r[i].klasifikasi == klasifikasi.value[i]
    {
      var ms, column := measurements, klasifikasi.value;
      seq(|ms|, i requires 0 <= i < |ms| => Row(ms[i], column[i]))
    }

    /**
      Adds (or replaces) the classification column. The measurements, every
      other column, are left as they were.
     */
    method AddClassificationColumn()
      modifies this
      ensures measurements == old(measurements)
      ensures HasClassification() && WellClassified(Rows())
    {
      var column := ClassifyRows(measurements);
      klasifikasi := Some(column);
    }
  }

  /** The two columns the pages filter on. */
  datatype KeyColumn = CountryLabel | City

  function Key(r: Row, c: KeyColumn): string
  {
    match c
    case CountryLabel => r.m.countryLabel
    case City => r.m.city
  }

  /** One key column of a table, in row order. */
  function Keys(rows: seq<Row>, c: KeyColumn): (ks: seq<string>)
    ensures |ks| == |rows|
    ensures forall i :: 0 <= i < |rows| ==> ks[i] == Key(rows[i], c)
  {
    seq(|rows|, i requires 0 <= i < |rows| => Key(rows[i], c))
  }

  /**
    `df[df[c] == key]`: the rows whose key column equals `key` exactly. The
    result holds those rows and no others, each no more often than the table.
   */
  function Where(rows: seq<Row>, c: KeyColumn, key: string): (r: seq<Row>)
    ensures |r| <= |rows|
    ensures forall x :: x in r <==> x in rows && Key(x, c) == key
    ensures multiset(r) <= multiset(rows)
  {
    if rows == [] then []
    else
      assert rows == [rows[0]] + rows[1..];
      (if Key(rows[0], c) == key then [rows[0]] else []) + Where(rows[1..], c, key)
  }

  /** Filtering keeps the table's order: it distributes over concatenation. */
  lemma {:induction false} WhereAppend(a: seq<Row>, b: seq<Row>, c: KeyColumn, key: string)
    ensures Where(a + b, c, key) == Where(a, c, key) + Where(b, c, key)
  {
    if a == [] {
      assert a + b == b;
    } else {
      assert (a + b)[0] == a[0] && (a + b)[1..] == a[1..] + b;
      WhereAppend(a[1..], b, c, key);
    }
  }

  /** Filtering keeps every matching row as often as the table has it, and drops the rest. */
  lemma {:induction false} WhereMultiplicity(rows: seq<Row>, c: KeyColumn, key: string, x: Row)
    ensures multiset(Where(rows, c, key))[x] == if Key(x, c) == key then multiset(rows)[x] else 0
  {
    if rows != [] {
      assert rows == [rows[0]] + rows[1..];
      WhereMultiplicity(rows[1..], c, key, x);
    }
  }

  /** The city filter applied to a country's rows is the country filter applied to the city's rows. */
  lemma {:induction false} WhereCommute(rows: seq<Row>, c1: KeyColumn, k1: string, c2: KeyColumn, k2: string)
    ensures Where(Where(rows, c1, k1), c2, k2) == Where(Where(rows, c2, k2), c1, k1)
  {
    if rows != [] {
      var x, rest := rows[0], rows[1..];
      var h1 := if Key(x, c1) == k1 then [x] else [];
      var h2 := if Key(x, c2) == k2 then [x] else [];
      assert Where(rows, c1, k1) == h1 + Where(rest, c1, k1);
      assert Where(rows, c2, k2) == h2 + Where(rest, c2, k2);
      WhereAppend(h1, Where(rest, c1, k1), c2, k2);
      WhereAppend(h2, Where(rest, c2, k2), c1, k1);
      assert Where(h1, c2, k2) == Where(h2, c1, k1);
      WhereCommute(rest, c1, k1, c2, k2);
    }
  }

  /**
    `unique()`: the distinct values of a column in the order of their first
    appearance.
   */
  function Unique(xs: seq<string>): (r: seq<string>)
    ensures forall y :: y in r <==> y in xs
    ensures forall i, j :: 0 <= i < j < |r| ==> r[i] != r[j]
    ensures |r| <= |xs|
  {
    if xs == [] then []
    else
      var u := Unique(xs[..|xs| - 1]);
      assert xs == xs[..|xs| - 1] + [xs[|xs| - 1]];
      if xs[|xs| - 1] in u then u else u + [xs[|xs| - 1]]
  }

  /** Later rows never reorder the values already seen: the distinct values of a prefix stay a prefix. */
  lemma {:induction false} UniquePrefix(xs: seq<string>, ys: seq<string>)
    ensures Unique(xs) <= Unique(xs + ys)
    decreases |ys|
  {
    if ys != [] {
      var init := ys[..|ys| - 1];
      assert xs + ys == (xs + init) + [ys[|ys| - 1]];
      assert (xs + ys)[..|xs + ys| - 1] == xs + init;
      UniquePrefix(xs, init);
    } else {
      assert xs + ys == xs;
    }
  }

  /** `df['Country Label'].sort_values().unique()`: the country list of both country pages. */
  function SortedCountries(rows: seq<Row>): (cs: seq<string>)
    ensures StringOrder.StrictlySorted(cs)
    ensures forall c :: c in cs <==> exists i :: 0 <= i < |rows| && rows[i].m.countryLabel == c
  {
    var ks := Keys(rows, CountryLabel);
    var cs := StringOrder.SortedUnique(ks);
    assert forall c :: c in ks <==> exists i :: 0 <= i < |rows| && rows[i].m.countryLabel == c by {
      forall c ensures c in ks <==> exists i :: 0 <= i < |rows| && rows[i].m.countryLabel == c {
        if c in ks {
          var i :| 0 <= i < |ks| && ks[i] == c;
          assert rows[i].m.countryLabel == c;
        }
      }
    }
    cs
  }

  /** The country list is as long as the number of distinct country labels of the table. */
  lemma CountryCount(rows: seq<Row>)
    ensures |SortedCountries(rows)| == |set i | 0 <= i < |rows| :: rows[i].m.countryLabel|
  {
    var cs := SortedCountries(rows);
    StringOrder.StrictlySortedCardinality(cs);
    assert (set y | y in cs) == (set i | 0 <= i < |rows| :: rows[i].m.countryLabel) by {
      forall y | y in cs ensures y in (set i | 0 <= i < |rows| :: rows[i].m.countryLabel) {
        var i :| 0 <= i < |rows| && rows[i].m.countryLabel == y;
      }
    }
  }

  /** Every country the selector offers has rows, so the country filter is never empty for it. */
  lemma CountryOptionHasRows(rows: seq<Row>, country: string)
    requires country in SortedCountries(rows)
    ensures Where(rows, CountryLabel, country) != []
  {
    var i :| 0 <= i < |rows| && rows[i].m.countryLabel == country;
    assert rows[i] in Where(rows, CountryLabel, country);
  }

  /** `country_data['City'].unique()`: the city list of the monitor page. */
  function CityOptions(countryData: seq<Row>): (cs: seq<string>)
    ensures forall c :: c in cs <==> exists i :: 0 <= i < |countryData| && countryData[i].m.city == c
    ensures forall i, j :: 0 <= i < j < |cs| ==> cs[i] != cs[j]
  {
    var ks := Keys(countryData, City);
    assert forall c :: c in ks <==> exists i :: 0 <= i < |countryData| && countryData[i].m.city == c by {
      forall c ensures c in ks <==> exists i :: 0 <= i < |countryData| && countryData[i].m.city == c {
        if c in ks {
          var i :| 0 <= i < |ks| && ks[i] == c;
          assert countryData[i].m.city == c;
        }
      }
    }
    Unique(ks)
  }

  /**
    The monitor page's drill-down: the rows of the chosen city within the
    chosen country are rows of that country, of that city, and a sub-multiset
    of the country's rows.
   */
  lemma CityDataWithinCountry(rows: seq<Row>, country: string, city: string)
    ensures var countryData := Where(rows, CountryLabel, country);
            var cityData := Where(countryData, City, city);
            && multiset(cityData) <= multiset(countryData)
            && forall x :: x in cityData <==> x in rows && x.m.countryLabel == country && x.m.city == city
  {
  }
}
