/**
 * Key reconciliation between the volcano table and the country boundaries
 * (app.py lines 33-41): the boundary names read from the GeoJSON features,
 * the sorted list of table countries the boundaries lack, and the rename
 * table applied to every row's country before counting again.
 */
module Reconcile {
  import opened Wrappers
  import opened Order
  import opened Tables

  /**
   * A GeoJSON Feature, reduced to its `properties` member (section 3.2 of
   * RFC 7946); the geometry is only passed on to the map and is left out.
   */
  datatype Feature = Feature(properties: map<string, string>)

  /** The property that names a boundary's country. */
  const Admin: string := "ADMIN"

  /**
   * `{f['properties']['ADMIN'] for f in geojson['features']}`: `None` when
   * some feature has no `ADMIN` property, where the lookup raises `KeyError`.
   */
  function BoundaryNames(features: seq<Feature>): (r: Option<set<string>>)
    ensures r.Some? <==> forall i :: 0 <= i < |features| ==> Admin in features[i].properties
    ensures r.Some? ==> forall n :: n in r.value <==>
      exists i :: 0 <= i < |features| && features[i].properties[Admin] == n
  {
    if forall f :: f in features ==> Admin in f.properties then
      Some(set f | f in features :: f.properties[Admin])
    else
      None
  }

  /** The elements of `xs` that are not in `s`, in order. */
  function Without(xs: seq<string>, s: set<string>): (r: seq<string>)
    ensures forall y :: y in r <==> y in xs && y !in s
  {
    if |xs| == 0 then []
    else if xs[0] in s then Without(xs[1..], s)
    else [xs[0]] + Without(xs[1..], s)
  }

  /**
   * `sorted(set(t['Country']) - gjNames)`: the table's countries that no
   * boundary carries, ascending and without repetition.
   */
  function Missing(t: seq<CountRow>, gjNames: set<string>): (r: seq<string>)
    ensures StrictlySorted(r)
    ensures forall c :: c in r <==> c in Keys(t) && c !in gjNames
  {
    SortedUnique(Without(Column(t), gjNames))
  }

  /** `missing` has no name twice. */
  lemma MissingDistinct(t: seq<CountRow>, gjNames: set<string>)
    ensures var r := Missing(t, gjNames);
      forall i, j :: 0 <= i < j < |r| ==> r[i] != r[j]
  {
    StrictlySortedDistinct(Missing(t, gjNames));
  }

  /** The country spelled as in the volcano file, and as the boundary file spells it. */
  const UnitedStates: string := "United States"
  const UnitedStatesOfAmerica: string := "United States of America"

  /** The fixed rename table passed to `replace`. */
  const Renames: map<string, string> := map[UnitedStates := UnitedStatesOfAmerica]

  /** What `Series.replace(m)` makes of one value: its image if it is a key, itself otherwise. */
  function Replace(m: map<string, string>, v: string): (w: string)
    ensures v in m ==> w == m[v]
    ensures v !in m ==> w == v
  {
    if v in m then m[v] else v
  }

  /** The rows after `dfv["Country"] = dfv["Country"].replace(m)`. */
  function Renamed(m: map<string, string>, rows: seq<Record>): (r: seq<Record>)
    ensures |r| == |rows|
    ensures forall i :: 0 <= i < |rows| ==> r[i] == rows[i].(country := Replace(m, rows[i].country))
  {
    seq(|rows|, i requires 0 <= i < |rows| => rows[i].(country := Replace(m, rows[i].country)))
  }

  /** A row changes only when its country is a key of the table, and then only in its country. */
  lemma RenamedOnlyMatching(m: map<string, string>, rows: seq<Record>)
    ensures var r := Renamed(m, rows);
      forall i :: 0 <= i < |rows| ==>
        && r[i].name == rows[i].name
        && (rows[i].country !in m ==> r[i] == rows[i])
        && (rows[i].country in m ==> r[i].country == m[rows[i].country])
  {
  }

  /** No value of the table is itself a key, so nothing is renamed twice. */
  predicate NotChained(m: map<string, string>)
  {
    forall k :: k in m ==> m[k] !in m
  }

  lemma RenamesNotChained()
    ensures NotChained(Renames)
  {
  }

  /** Renaming twice is renaming once when the table is not chained. */
  lemma RenamedIdempotent(m: map<string, string>, rows: seq<Record>)
    requires NotChained(m)
    ensures Renamed(m, Renamed(m, rows)) == Renamed(m, rows)
  {
  }

  /** The overwrite of the `Country` column, done row by row on the working table. */
  method RenameInPlace(a: array<Record>, m: map<string, string>)
    modifies a
    ensures a[..] == Renamed(m, old(a[..]))
  {
    for i := 0 to a.Length
      invariant forall k :: 0 <= k < i ==> a[k] == old(a[k]).(country := Replace(m, old(a[k]).country))
      invariant forall k :: i <= k < a.Length ==> a[k] == old(a[k])
    {
      a[i] := a[i].(country := Replace(m, a[i].country));
    }
  }

  /**
   * After renaming `from` to `to` (two different names) the rows count for
   * `to` what they counted for both, for `from` nothing, and for every other
   * country what they counted before.
   */
  lemma {:induction false} OccurrencesRenamed(from: string, to: string, rows: seq<Record>, c: string)
    requires from != to
    ensures Occurrences(Renamed(map[from := to], rows), c) ==
      if c == to then Occurrences(rows, from) + Occurrences(rows, to)
      else if c == from then 0
      else Occurrences(rows, c)
  {
    if |rows| > 0 {
      var m := map[from := to];
      OccurrencesRenamed(from, to, rows[1..], c);
      assert Renamed(m, rows)[1..] == Renamed(m, rows[1..]);
    }
  }

  /**
   * Re-aggregating after the rename merges the "United States" count into
   * "United States of America", drops the "United States" row, and keeps
   * every other count and the total.
   */
  lemma RenameRecount(rows: seq<Record>)
    ensures var before, after := Aggregate(rows), Aggregate(Renamed(Renames, rows));
      && CountOf(after, UnitedStatesOfAmerica) == CountOf(before, UnitedStates) + CountOf(before, UnitedStatesOfAmerica)
      && CountOf(after, UnitedStates) == 0
      && UnitedStates !in Keys(after)
      && (forall c :: c != UnitedStates && c != UnitedStatesOfAmerica ==> CountOf(after, c) == CountOf(before, c))
      && Total(after) == Total(before)
  {
    var before, after := Aggregate(rows), Aggregate(Renamed(Renames, rows));
    forall c ensures CountOf(after, c) ==
      if c == UnitedStatesOfAmerica then CountOf(before, UnitedStates) + CountOf(before, UnitedStatesOfAmerica)
      else if c == UnitedStates then 0
      else CountOf(before, c)
    {
      OccurrencesRenamed(UnitedStates, UnitedStatesOfAmerica, rows, c);
    }
    CountOfPositive(after, UnitedStates);
  }
}
