/**
 * The volcano rows and the per-country count table that
 * `groupby(by=["Country"])["Volcano Name"].count().reset_index(name="num_volcanes")`
 * builds from them (app.py lines 32 and 41).
 */
module Tables {
  import opened Order

  /** One volcano row, reduced to the two columns the count reads; neither is ever null. */
  datatype Record = Record(name: string, country: string)

  /** One row of the count table: a country and its `num_volcanes`. */
  datatype CountRow = CountRow(country: string, numVolcanes: nat)

  /** The number of rows whose country is `c`. */
  function Occurrences(rows: seq<Record>, c: string): nat
  {
    if |rows| == 0 then 0
    else (if rows[0].country == c then 1 else 0) + Occurrences(rows[1..], c)
  }

  /** `set(rows["Country"])`. */
  function Countries(rows: seq<Record>): set<string>
  {
    set r | r in rows :: r.country
  }

  /** The set of countries a count table has rows for. */
  function Keys(t: seq<CountRow>): set<string>
  {
    set row | row in t :: row.country
  }

  /** The `Country` column of a count table, in row order. */
  function Column(t: seq<CountRow>): (col: seq<string>)
    ensures |col| == |t|
    ensures forall i :: 0 <= i < |t| ==> col[i] == t[i].country
    ensures forall c :: c in col <==> c in Keys(t)
  {
    if |t| == 0 then [] else [t[0].country] + Column(t[1..])
  }

  /** The rows are in ascending country order with no country twice, as `groupby` leaves them. */
  predicate KeySorted(t: seq<CountRow>)
  {
    forall i, j :: 0 <= i < j < |t| ==> Less(t[i].country, t[j].country)
  }

  /** Every row counts at least one volcano. */
  predicate Positive(t: seq<CountRow>)
  {
    forall i :: 0 <= i < |t| ==> t[i].numVolcanes >= 1
  }

  /** The volcanoes the table records for `c`: the sum over the rows for `c`. */
  function CountOf(t: seq<CountRow>, c: string): nat
  {
    if |t| == 0 then 0
    else (if t[0].country == c then t[0].numVolcanes else 0) + CountOf(t[1..], c)
  }

  /** `sum(t["num_volcanes"])`. */
  function Total(t: seq<CountRow>): nat
  {
    if |t| == 0 then 0 else t[0].numVolcanes + Total(t[1..])
  }

  lemma {:induction false} CountOfAbsent(t: seq<CountRow>, c: string)
    requires c !in Keys(t)
    ensures CountOf(t, c) == 0
  {
    if |t| > 0 {
      ConsFacts(t[0], t[1..]);
      assert t == [t[0]] + t[1..];
      CountOfAbsent(t[1..], c);
    }
  }

  /** How the table functions see a row put in front of a table. */
  lemma ConsFacts(row: CountRow, t: seq<CountRow>)
    ensures ([row] + t)[1..] == t
    ensures Keys([row] + t) == {row.country} + Keys(t)
    ensures forall k :: CountOf([row] + t, k) == (if row.country == k then row.numVolcanes else 0) + CountOf(t, k)
    ensures Total([row] + t) == row.numVolcanes + Total(t)
  {
  }

  /** A row whose country precedes every key of a key-sorted table may go in front of it. */
  lemma KeySortedCons(row: CountRow, t: seq<CountRow>)
    requires KeySorted(t)
    requires forall k :: k in Keys(t) ==> Less(row.country, k)
    ensures KeySorted([row] + t)
  {
  }

  /** The first key of a key-sorted table precedes every other key. */
  lemma KeySortedTail(t: seq<CountRow>)
    requires KeySorted(t) && |t| > 0
    ensures KeySorted(t[1..])
    ensures forall k :: k in Keys(t[1..]) ==> Less(t[0].country, k)
    ensures t[0].country !in Keys(t[1..])
  {
    LessIrreflexive(t[0].country);
    forall k | k in Keys(t[1..]) ensures Less(t[0].country, k) {
      var j :| 0 <= j < |t| - 1 && t[1..][j].country == k;
      assert t[j + 1].country == k;
    }
  }

  /** In a key-sorted table each row holds the whole count of its country. */
  lemma {:induction false} CountOfRow(t: seq<CountRow>, i: nat)
    requires KeySorted(t) && i < |t|
    ensures CountOf(t, t[i].country) == t[i].numVolcanes
  {
    KeySortedTail(t);
    if i == 0 {
      CountOfAbsent(t[1..], t[0].country);
    } else {
      LessIrreflexive(t[0].country);
      assert Less(t[0].country, t[i].country);
      CountOfRow(t[1..], i - 1);
    }
  }

  /** A count is positive exactly when the table has a row for that country. */
  lemma CountOfPositive(t: seq<CountRow>, c: string)
    requires KeySorted(t) && Positive(t)
    ensures CountOf(t, c) > 0 <==> c in Keys(t)
  {
  }

  /** Counts one more row for country `c`: adds to its row, or inserts a new row at its place. */
  function Tally(t: seq<CountRow>, c: string): seq<CountRow>
  {
    if |t| == 0 then [CountRow(c, 1)]
    else if t[0].country == c then [CountRow(c, t[0].numVolcanes + 1)] + t[1..]
    else if Less(c, t[0].country) then [CountRow(c, 1)] + t
    else [t[0]] + Tally(t[1..], c)
  }

  /** Tallying `c` adds `c` to the keys and nothing else. */
  lemma {:induction false} TallyKeys(t: seq<CountRow>, c: string)
    ensures Keys(Tally(t, c)) == Keys(t) + {c}
  {
    if |t| > 0 {
      ConsFacts(t[0], t[1..]);
      assert t == [t[0]] + t[1..];
      if t[0].country == c {
        ConsFacts(CountRow(c, t[0].numVolcanes + 1), t[1..]);
      } else if Less(c, t[0].country) {
        ConsFacts(CountRow(c, 1), t);
      } else {
        TallyKeys(t[1..], c);
        ConsFacts(t[0], Tally(t[1..], c));
      }
    } else {
      ConsFacts(CountRow(c, 1), []);
    }
  }

  /** Tallying `c` adds one to the count of `c` and to the total, and leaves every other count alone. */
  lemma {:induction false} TallyCounts(t: seq<CountRow>, c: string)
    ensures forall k :: CountOf(Tally(t, c), k) == CountOf(t, k) + (if k == c then 1 else 0)
    ensures Total(Tally(t, c)) == Total(t) + 1
  {
    if |t| > 0 {
      ConsFacts(t[0], t[1..]);
      assert t == [t[0]] + t[1..];
      if t[0].country == c {
        ConsFacts(CountRow(c, t[0].numVolcanes + 1), t[1..]);
      } else if Less(c, t[0].country) {
        ConsFacts(CountRow(c, 1), t);
      } else {
        TallyCounts(t[1..], c);
        ConsFacts(t[0], Tally(t[1..], c));
      }
    } else {
      ConsFacts(CountRow(c, 1), []);
    }
  }

  /** Tallying keeps a table key-sorted and its counts positive. */
  lemma {:induction false} TallySorted(t: seq<CountRow>, c: string)
    requires KeySorted(t)
    ensures KeySorted(Tally(t, c))
    ensures Positive(t) ==> Positive(Tally(t, c))
  {
    if |t| == 0 {
    } else {
      KeySortedTail(t);
      assert t == [t[0]] + t[1..];
      if t[0].country == c {
        KeySortedCons(CountRow(c, t[0].numVolcanes + 1), t[1..]);
      } else if Less(c, t[0].country) {
        ConsFacts(t[0], t[1..]);
        forall k | k in Keys(t) ensures Less(c, k) {
          if k != t[0].country {
            LessTransitive(c, t[0].country, k);
          }
        }
        KeySortedCons(CountRow(c, 1), t);
      } else {
        var rest := Tally(t[1..], c);
        TallySorted(t[1..], c);
        TallyKeys(t[1..], c);
        LessTotal(c, t[0].country);
        KeySortedCons(t[0], rest);
      }
    }
  }

  /**
   * The count table of `rows`: one row per distinct country, in ascending
   * country order, each with the number of rows for that country.
   */
  function Aggregate(rows: seq<Record>): (t: seq<CountRow>)
    ensures KeySorted(t)
    ensures Positive(t)
    ensures Keys(t) == Countries(rows)
    ensures forall c :: CountOf(t, c) == Occurrences(rows, c)
    ensures Total(t) == |rows|
  {
    if |rows| == 0 then []
    else
      assert Countries(rows) == {rows[0].country} + Countries(rows[1..]);
      TallyKeys(Aggregate(rows[1..]), rows[0].country);
      TallyCounts(Aggregate(rows[1..]), rows[0].country);
      TallySorted(Aggregate(rows[1..]), rows[0].country);
      Tally(Aggregate(rows[1..]), rows[0].country)
  }

  /** Each row of the count table carries the number of input rows for its country. */
  lemma AggregateRows(rows: seq<Record>)
    ensures var t := Aggregate(rows);
      forall i :: 0 <= i < |t| ==> t[i].numVolcanes == Occurrences(rows, t[i].country) >= 1
  {
    var t := Aggregate(rows);
    forall i | 0 <= i < |t| ensures t[i].numVolcanes == Occurrences(rows, t[i].country) {
      CountOfRow(t, i);
    }
  }

  /** Two key-sorted tables of positive counts that agree on every count start with the same key. */
  lemma SameFirstKey(t: seq<CountRow>, u: seq<CountRow>)
    requires KeySorted(t) && Positive(t) && KeySorted(u) && Positive(u)
    requires forall c :: CountOf(t, c) == CountOf(u, c)
    requires |t| > 0 && |u| > 0
    ensures t[0].country == u[0].country
  {
    var a, b := t[0].country, u[0].country;
    CountOfPositive(t, a);
    CountOfPositive(u, a);
    CountOfPositive(u, b);
    CountOfPositive(t, b);
    KeySortedTail(t);
    KeySortedTail(u);
    assert Keys(t) == {a} + Keys(t[1..]) && Keys(u) == {b} + Keys(u[1..]) by {
      ConsFacts(t[0], t[1..]);
      ConsFacts(u[0], u[1..]);
      assert t == [t[0]] + t[1..] && u == [u[0]] + u[1..];
    }
    if a != b {
      assert Less(a, b) && Less(b, a);
      LessAsymmetric(a, b);
    }
  }

  /** A key-sorted table of positive counts is determined by what it counts for each country. */
  lemma {:induction false} TableDeterminedByCounts(t: seq<CountRow>, u: seq<CountRow>)
    requires KeySorted(t) && Positive(t) && KeySorted(u) && Positive(u)
    requires forall c :: CountOf(t, c) == CountOf(u, c)
    ensures t == u
  {
    if |t| > 0 {
      CountOfPositive(t, t[0].country);
      CountOfPositive(u, t[0].country);
      SameFirstKey(t, u);
      CountOfRow(t, 0);
      CountOfRow(u, 0);
      KeySortedTail(t);
      KeySortedTail(u);
      ConsFacts(t[0], t[1..]);
      ConsFacts(u[0], u[1..]);
      assert t == [t[0]] + t[1..] && u == [u[0]] + u[1..];
      TableDeterminedByCounts(t[1..], u[1..]);
    } else if |u| > 0 {
      CountOfPositive(u, u[0].country);
    }
  }

  /** Any key-sorted positive table that counts `rows` correctly is `Aggregate(rows)`. */
  lemma AggregateUnique(rows: seq<Record>, t: seq<CountRow>)
    requires KeySorted(t) && Positive(t)
    requires forall c :: CountOf(t, c) == Occurrences(rows, c)
    ensures t == Aggregate(rows)
  {
    TableDeterminedByCounts(t, Aggregate(rows));
  }
}
