/**
 * The top-five ranking and its annotation (app.py lines 64 and 66):
 * `sort_values("num_volcanes", ascending=False).head(5)` and the
 * `"<br>"`-join of one coloured `"Country: count"` entry per ranked row.
 */
module Ranking {
  import opened Text
  import opened Tables

  /** Counts never increase along the sequence. */
  predicate NonIncreasing(s: seq<CountRow>)
  {
    forall i, j :: 0 <= i < j < |s| ==> s[i].numVolcanes >= s[j].numVolcanes
  }

  /** A row counting at least as much as every element may go in front. */
  lemma NonIncreasingCons(row: CountRow, s: seq<CountRow>)
    requires NonIncreasing(s)
    requires forall x :: x in s ==> x.numVolcanes <= row.numVolcanes
    ensures NonIncreasing([row] + s)
  {
    var r := [row] + s;
    forall i, j | 0 <= i < j < |r| ensures r[i].numVolcanes >= r[j].numVolcanes {
      if i == 0 {
        assert r[j] in s;
      }
    }
  }

  /** Places `row` into a non-increasing sequence. */
  function InsertByCount(row: CountRow, s: seq<CountRow>): (r: seq<CountRow>)
    requires NonIncreasing(s)
    ensures NonIncreasing(r)
    ensures multiset(r) == multiset(s) + multiset{row}
  {
    if |s| == 0 then [row]
    else if row.numVolcanes >= s[0].numVolcanes then
      NonIncreasingCons(row, s);
      [row] + s
    else
      var rest := InsertByCount(row, s[1..]);
      assert s == [s[0]] + s[1..];
      assert multiset(s) == multiset{s[0]} + multiset(s[1..]);
      HeadBoundsInsert(row, s, rest);
      NonIncreasingCons(s[0], rest);
      [s[0]] + rest
  }

  /** The head of `s` bounds every row of its tail with `row` added. */
  lemma HeadBoundsInsert(row: CountRow, s: seq<CountRow>, rest: seq<CountRow>)
    requires NonIncreasing(s) && |s| > 0 && row.numVolcanes < s[0].numVolcanes
    requires multiset(rest) == multiset(s[1..]) + multiset{row}
    ensures forall x :: x in rest ==> x.numVolcanes <= s[0].numVolcanes
  {
    forall x | x in rest ensures x.numVolcanes <= s[0].numVolcanes {
      assert x in multiset(rest);
      if x != row {
        assert x in multiset(s[1..]);
        var j :| 0 <= j < |s[1..]| && s[1..][j] == x;
        assert s[j + 1] == x;
      }
    }
  }

  /**
   * One ordering `sort_values(ascending=False)` may produce: count
   * descending. Its order among equal counts is not one the source fixes,
   * and nothing below depends on it.
   */
  function SortByCountDesc(t: seq<CountRow>): (r: seq<CountRow>)
    ensures NonIncreasing(r)
    ensures multiset(r) == multiset(t)
  {
    if |t| == 0 then []
    else
      assert t == [t[0]] + t[1..];
      InsertByCount(t[0], SortByCountDesc(t[1..]))
  }

  /** The ranking size. */
  const TopN: nat := 5

  function Min(a: nat, b: nat): nat
  {
    if a <= b then a else b
  }

  /** `.head(n)` of the descending sort. */
  function Top(t: seq<CountRow>, n: nat): seq<CountRow>
  {
    SortByCountDesc(t)[..Min(n, |t|)]
  }

  /** `top5`. */
  function Top5(t: seq<CountRow>): seq<CountRow>
  {
    Top(t, TopN)
  }

  /** A prefix of a non-increasing sequence is non-increasing and part of it. */
  lemma PrefixNonIncreasing(s: seq<CountRow>, k: nat)
    requires NonIncreasing(s) && k <= |s|
    ensures NonIncreasing(s[..k])
    ensures multiset(s[..k]) <= multiset(s)
  {
    assert s == s[..k] + s[k..];
    assert multiset(s) == multiset(s[..k]) + multiset(s[k..]);
  }

  /** What a non-increasing sequence leaves out after its first `k` elements counts no more than its `k`-th. */
  lemma PrefixOfNonIncreasing(s: seq<CountRow>, k: nat)
    requires NonIncreasing(s) && 0 < k <= |s|
    ensures forall x :: x in multiset(s) - multiset(s[..k]) ==> x.numVolcanes <= s[k - 1].numVolcanes
  {
    assert s == s[..k] + s[k..];
    assert multiset(s) == multiset(s[..k]) + multiset(s[k..]);
    forall x | x in multiset(s) - multiset(s[..k]) ensures x.numVolcanes <= s[k - 1].numVolcanes {
      assert x in multiset(s[k..]);
      var j :| k <= j < |s| && s[j] == x;
    }
  }

  /**
   * What `Top` yields: `min(n, |t|)` rows of `t`, counts non-increasing, and
   * no row left out with a count above the last one taken.
   */
  lemma TopSpec(t: seq<CountRow>, n: nat)
    ensures var r := Top(t, n);
      && |r| == Min(n, |t|)
      && NonIncreasing(r)
      && multiset(r) <= multiset(t)
      && (|r| > 0 ==> forall x :: x in multiset(t) - multiset(r) ==> x.numVolcanes <= r[|r| - 1].numVolcanes)
  {
    var s := SortByCountDesc(t);
    var k := Min(n, |t|);
    PrefixNonIncreasing(s, k);
    if k > 0 {
      PrefixOfNonIncreasing(s, k);
    }
  }

  /**
   * The same holds for the head of ANY descending ordering of `t`, whatever
   * order it gives equal counts, so it holds of whatever order
   * `sort_values` produces.
   */
  lemma TopSpecAnyOrder(t: seq<CountRow>, s: seq<CountRow>, n: nat)
    requires NonIncreasing(s) && multiset(s) == multiset(t)
    ensures |s| == |t|
    ensures var r := s[..Min(n, |t|)];
      && NonIncreasing(r)
      && multiset(r) <= multiset(t)
      && (|r| > 0 ==> forall x :: x in multiset(t) - multiset(r) ==> x.numVolcanes <= r[|r| - 1].numVolcanes)
  {
    assert |s| == |multiset(s)| == |multiset(t)| == |t|;
    var k := Min(n, |t|);
    PrefixNonIncreasing(s, k);
    if k > 0 {
      PrefixOfNonIncreasing(s, k);
    }
  }

  /**
   * The same in terms of countries: every ranked row comes from the table,
   * and a row of the table whose country is not ranked counts no more than
   * the last ranked row.
   */
  lemma TopByCountry(t: seq<CountRow>, n: nat)
    ensures var r := Top(t, n);
      && (forall x :: x in r ==> x in t)
      && (|r| > 0 ==> forall x :: x in t && x.country !in Keys(r) ==> x.numVolcanes <= r[|r| - 1].numVolcanes)
  {
    TopSpec(t, n);
    var r := Top(t, n);
    forall x | x in r ensures x in t {
      assert x in multiset(r);
    }
    if |r| > 0 {
      forall x | x in t && x.country !in Keys(r) ensures x.numVolcanes <= r[|r| - 1].numVolcanes {
        assert x !in r;
        assert x in multiset(t) - multiset(r);
      }
    }
  }

  /** The colour markup that opens each entry. */
  const EntryPrefix: string := "<span style='color:blue'>"

  /** `f"<span style='color:blue'>{fila.Country}: {fila.num_volcanes}"`. */
  function Entry(row: CountRow): string
  {
    EntryPrefix + row.country + ": " + NatToString(row.numVolcanes)
  }

  /** The entries, one per ranked row, in ranking order. */
  function Entries(top: seq<CountRow>): (es: seq<string>)
    ensures |es| == |top|
    ensures forall i :: 0 <= i < |top| ==> es[i] == Entry(top[i])
  {
    if |top| == 0 then [] else [Entry(top[0])] + Entries(top[1..])
  }

  /** `anotation`: the entries joined by `"<br>"`. */
  function Annotation(top: seq<CountRow>): string
  {
    Join(Break, Entries(top))
  }

  lemma EntryBreakFree(row: CountRow)
    requires BreakFree(row.country)
    ensures BreakFree(Entry(row))
  {
  }

  /**
   * The annotation holds exactly one entry per ranked row, in ranking order:
   * splitting it at `"<br>"` gives the entries back, as long as no country
   * name has a `'<'` that could start a `"<br>"`.
   */
  lemma AnnotationEntries(top: seq<CountRow>)
    requires |top| > 0
    requires forall i :: 0 <= i < |top| ==> BreakFree(top[i].country)
    ensures SplitBreaks(Annotation(top)) == Entries(top)
    ensures |SplitBreaks(Annotation(top))| == |top|
  {
    forall i | 0 <= i < |top| ensures BreakFree(Entries(top)[i]) {
      EntryBreakFree(top[i]);
    }
    SplitJoin(Entries(top));
  }

  /** An empty ranking gives the empty annotation. */
  lemma AnnotationEmpty()
    ensures Annotation([]) == ""
  {
  }
}
