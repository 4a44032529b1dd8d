/**
 * The country selector (app.py lines 109-114): the option list `"All"`
 * followed by the sorted distinct countries, and the slice of the count
 * table the chosen option shows.
 */
module Selection {
  import opened Order
  import opened Tables

  /** The option that shows the whole table. */
  const AllOption: string := "All"

  /** `["All"] + sorted(pd.unique(t["Country"]))`. */
  function CountryOptions(t: seq<CountRow>): (r: seq<string>)
    ensures |r| >= 1 && r[0] == AllOption
    ensures StrictlySorted(r[1..])
    ensures forall c :: c in r[1..] <==> c in Keys(t)
  {
    [AllOption] + SortedUnique(Column(t))
  }

  /** On a key-sorted table the countries after `"All"` are its `Country` column as it stands. */
  lemma OptionsOfKeySorted(t: seq<CountRow>)
    requires KeySorted(t)
    ensures CountryOptions(t) == [AllOption] + Column(t)
  {
    assert StrictlySorted(Column(t));
    SortedUniqueOfSorted(Column(t));
  }

  /** `t[t["Country"] == c]`: the rows for `c`, in table order. */
  function RowsFor(t: seq<CountRow>, c: string): (r: seq<CountRow>)
    ensures forall row :: row in r <==> row in t && row.country == c
    ensures forall row :: multiset(r)[row] == if row.country == c then multiset(t)[row] else 0
    ensures |r| <= |t|
  {
    if |t| == 0 then []
    else
      assert t == [t[0]] + t[1..];
      if t[0].country == c then [t[0]] + RowsFor(t[1..], c)
      else RowsFor(t[1..], c)
  }

  /** `reduced_df`: the whole table for `"All"`, otherwise the rows for the chosen country. */
  function Select(t: seq<CountRow>, choice: string): (r: seq<CountRow>)
    ensures choice == AllOption ==> r == t
    ensures choice != AllOption ==> forall row :: row in r <==> row in t && row.country == choice
    ensures choice != AllOption ==> forall row :: multiset(r)[row] == if row.country == choice then multiset(t)[row] else 0
  {
    if choice == AllOption then t else RowsFor(t, choice)
  }

  /** On a key-sorted table a country selects one row, the one that holds its count, or none. */
  lemma {:induction false} RowsForKeySorted(t: seq<CountRow>, c: string)
    requires KeySorted(t)
    ensures var r := RowsFor(t, c);
      && (c in Keys(t) ==> |r| == 1 && r[0].numVolcanes == CountOf(t, c))
      && (c !in Keys(t) ==> r == [])
  {
    if |t| > 0 {
      KeySortedTail(t);
      ConsFacts(t[0], t[1..]);
      assert t == [t[0]] + t[1..];
      RowsForKeySorted(t[1..], c);
      if t[0].country == c {
        CountOfAbsent(t[1..], c);
      }
    }
  }

  /** Choosing any country offered after `"All"` shows exactly its one row of the count table. */
  lemma SelectOffered(rows: seq<Record>, i: nat)
    requires var opts := CountryOptions(Aggregate(rows)); 1 <= i < |opts| && opts[i] != AllOption
    ensures var t, c := Aggregate(rows), CountryOptions(Aggregate(rows))[i];
      |Select(t, c)| == 1 && Select(t, c)[0].country == c && Select(t, c)[0].numVolcanes == Occurrences(rows, c)
  {
    var t := Aggregate(rows);
    var c := CountryOptions(t)[i];
    assert c in CountryOptions(t)[1..];
    RowsForKeySorted(t, c);
    assert Select(t, c)[0] in Select(t, c);
  }
}
