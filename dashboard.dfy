/**
 * The data-processing part of the dashboard script, app.py lines 30-41,
 * 64-66 and 109, run in its own order on a working copy of the volcano rows:
 * count, read the boundary names, list the mismatches, rename in place,
 * count again, rank, annotate and build the country options.
 */
module Dashboard {
  import opened Wrappers
  import opened Order
  import opened Tables
  import opened Reconcile
  import opened Ranking
  import opened Selection

  /** Everything the page shows that is computed from the data. */
  datatype Outputs = Outputs(
    missing: seq<string>,
    counts: seq<CountRow>,
    top5: seq<CountRow>,
    annotation: string,
    options: seq<string>)

  /** The script's computation as one value; `None` where reading an `ADMIN` property fails. */
  function Pipeline(raw: seq<Record>, features: seq<Feature>): Option<Outputs>
  {
    match BoundaryNames(features)
    case None => None
    case Some(gjNames) =>
      var counts := Aggregate(Renamed(Renames, raw));
      var top5 := Top5(counts);
      Some(Outputs(Missing(Aggregate(raw), gjNames), counts, top5, Annotation(top5), CountryOptions(counts)))
  }

  /** The script's statements in order, on a copy of the loaded rows that it changes in place. */
  method ProcessData(raw: seq<Record>, features: seq<Feature>) returns (out: Option<Outputs>)
    ensures out == Pipeline(raw, features)
  {
    var dfv := new Record[|raw|](i requires 0 <= i < |raw| => raw[i]);
    assert dfv[..] == raw;
    var counts := Aggregate(dfv[..]);
    var gjNames := BoundaryNames(features);
    if gjNames.None? {
      return None;
    }
    var missing := Missing(counts, gjNames.value);
    RenameInPlace(dfv, Renames);
    counts := Aggregate(dfv[..]);
    var top5 := Top5(counts);
    var annotation := Annotation(top5);
    var options := CountryOptions(counts);
    out := Some(Outputs(missing, counts, top5, annotation, options));
  }

  /**
   * What the script computes: `missing` is exact and sorted over the
   * countries as loaded, the final table counts the renamed rows, has no
   * "United States" row and counts every row once, the ranking has
   * `min(5, countries)` rows, and the options list the table's countries.
   */
  lemma PipelineSpec(raw: seq<Record>, features: seq<Feature>)
    ensures Pipeline(raw, features).Some? <==> forall i :: 0 <= i < |features| ==> Admin in features[i].properties
    ensures Pipeline(raw, features).Some? ==>
      var o, gjNames := Pipeline(raw, features).value, BoundaryNames(features).value;
      && StrictlySorted(o.missing)
      && (forall c :: c in o.missing <==> c in Countries(raw) && c !in gjNames)
      && o.counts == Aggregate(Renamed(Renames, raw))
      && Keys(o.counts) == Countries(Renamed(Renames, raw))
      && UnitedStates !in Keys(o.counts)
      && Total(o.counts) == |raw|
      && |o.top5| == Min(TopN, |o.counts|)
      && NonIncreasing(o.top5)
      && o.options == [AllOption] + Column(o.counts)
  {
    if Pipeline(raw, features).Some? {
      var o := Pipeline(raw, features).value;
      RenameRecount(raw);
      TopSpec(o.counts, TopN);
      OptionsOfKeySorted(o.counts);
    }
  }

  /** A volcano file that names "United States" puts it in `missing` unless a boundary carries that name. */
  lemma MissingKeepsUnitedStates(raw: seq<Record>, features: seq<Feature>, i: nat)
    requires i < |raw| && raw[i].country == UnitedStates
    requires BoundaryNames(features).Some? && UnitedStates !in BoundaryNames(features).value
    ensures UnitedStates in Pipeline(raw, features).value.missing
  {
  }

  /**
   * A country no boundary carries and the rename table does not touch (such
   * as a made-up country) is reported in `missing`, and the final table still counts
   * every one of its volcanoes under its own name.
   */
  lemma UnmatchedCountry(raw: seq<Record>, features: seq<Feature>, c: string)
    requires c in Countries(raw) && c != UnitedStates && c != UnitedStatesOfAmerica
    requires BoundaryNames(features).Some? && c !in BoundaryNames(features).value
    ensures var o := Pipeline(raw, features).value;
      c in o.missing && c in Keys(o.counts) && CountOf(o.counts, c) == Occurrences(raw, c)
  {
    var o := Pipeline(raw, features).value;
    RenameRecount(raw);
    CountOfPositive(Aggregate(raw), c);
    CountOfPositive(o.counts, c);
  }

  /** The rows of a worked example: one volcano in "United States", two in "Chile". */
  function ChileRows(): seq<Record>
  {
    [Record("Mount St. Helens", UnitedStates), Record("Villarrica", "Chile"), Record("Osorno", "Chile")]
  }

  /** Boundaries for "United States of America" and "Chile". */
  function ChileFeatures(): seq<Feature>
  {
    [Feature(map[Admin := UnitedStatesOfAmerica]), Feature(map[Admin := "Chile"])]
  }

  lemma ChileCounts()
    ensures Aggregate(ChileRows()) == [CountRow("Chile", 2), CountRow(UnitedStates, 1)]
    ensures Aggregate(Renamed(Renames, ChileRows())) == [CountRow("Chile", 2), CountRow(UnitedStatesOfAmerica, 1)]
  {
    var raw := ChileRows();
    var renamed := [Record("Mount St. Helens", UnitedStatesOfAmerica), Record("Villarrica", "Chile"), Record("Osorno", "Chile")];
    assert Renamed(Renames, raw) == renamed;
    assert !Less(UnitedStates, "Chile") && !Less(UnitedStatesOfAmerica, "Chile");
    assert Aggregate(raw[2..]) == [CountRow("Chile", 1)];
    assert raw[1..][1..] == raw[2..];
    assert Aggregate(raw[1..]) == [CountRow("Chile", 2)];
    assert Tally([CountRow("Chile", 2)], UnitedStates) == [CountRow("Chile", 2), CountRow(UnitedStates, 1)];
    assert Tally([CountRow("Chile", 2)], UnitedStatesOfAmerica) == [CountRow("Chile", 2), CountRow(UnitedStatesOfAmerica, 1)];
    assert renamed[1..] == raw[1..];
  }

  lemma ChileMissing()
    ensures BoundaryNames(ChileFeatures()) == Some({UnitedStatesOfAmerica, "Chile"})
    ensures Missing([CountRow("Chile", 2), CountRow(UnitedStates, 1)], {UnitedStatesOfAmerica, "Chile"}) == [UnitedStates]
  {
    var gjNames := {UnitedStatesOfAmerica, "Chile"};
    var features := ChileFeatures();
    assert features[0].properties[Admin] == UnitedStatesOfAmerica && features[1].properties[Admin] == "Chile";
    var r := BoundaryNames(features).value;
    assert UnitedStatesOfAmerica in r && "Chile" in r;
    assert r == gjNames;
    assert UnitedStates !in gjNames && "Chile" in gjNames;
    assert Without([UnitedStates], gjNames) == [UnitedStates] + Without([], gjNames);
    assert ["Chile", UnitedStates][1..] == [UnitedStates];
    assert Column([CountRow("Chile", 2), CountRow(UnitedStates, 1)]) == ["Chile", UnitedStates];
    assert Without(["Chile", UnitedStates], gjNames) == [UnitedStates];
  }

  lemma ChileTop(counts: seq<CountRow>)
    requires counts == [CountRow("Chile", 2), CountRow(UnitedStatesOfAmerica, 1)]
    ensures Top5(counts) == counts
  {
  }

  lemma ChileEntry()
    ensures Entry(CountRow("Chile", 2)) == "<span style='color:blue'>Chile: 2"
  {
    assert Text.NatToString(2) == "2";
  }

  lemma UnitedStatesOfAmericaEntry()
    ensures Entry(CountRow(UnitedStatesOfAmerica, 1)) == "<span style='color:blue'>United States of America: 1"
  {
    assert Text.NatToString(1) == "1";
  }

  lemma ChileAnnotation(counts: seq<CountRow>)
    requires counts == [CountRow("Chile", 2), CountRow(UnitedStatesOfAmerica, 1)]
    ensures Annotation(counts) == "<span style='color:blue'>Chile: 2" + "<br>" + "<span style='color:blue'>United States of America: 1"
  {
    ChileEntry();
    UnitedStatesOfAmericaEntry();
    var e0, e1 := Entry(counts[0]), Entry(counts[1]);
    assert Entries(counts) == [e0, e1];
    assert Text.Join(Text.Break, [e0, e1]) == e0 + Text.Break + e1;
  }

  lemma ChileOptions(counts: seq<CountRow>)
    requires counts == [CountRow("Chile", 2), CountRow(UnitedStatesOfAmerica, 1)]
    ensures CountryOptions(counts) == [AllOption, "Chile", UnitedStatesOfAmerica]
  {
    assert Less("Chile", UnitedStatesOfAmerica);
    assert Column(counts) == ["Chile", UnitedStatesOfAmerica];
    assert SortedUnique([UnitedStatesOfAmerica]) == [UnitedStatesOfAmerica];
  }

  /**
   * A worked example: the rename makes the join succeed,
   * "United States" is reported missing, and the ranking lists Chile first.
   */
  lemma ChileScenario()
    ensures var counts := [CountRow("Chile", 2), CountRow(UnitedStatesOfAmerica, 1)];
      Pipeline(ChileRows(), ChileFeatures()) == Some(Outputs(
        [UnitedStates],
        counts,
        counts,
        "<span style='color:blue'>Chile: 2" + "<br>" + "<span style='color:blue'>United States of America: 1",
        [AllOption, "Chile", UnitedStatesOfAmerica]))
  {
    ChileCounts();
    ChileMissing();
    var counts := [CountRow("Chile", 2), CountRow(UnitedStatesOfAmerica, 1)];
    ChileTop(counts);
    ChileAnnotation(counts);
    ChileOptions(counts);
  }
}
