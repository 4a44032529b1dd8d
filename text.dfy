/**
 * The text operations the annotation uses: Python's `str` of a
 * non-negative integer, `sep.join(parts)`, and `s.split("<br>")` as the
 * partner that recovers the joined parts.
 */
module Text {

  predicate IsDigit(c: char)
  {
    '0' <= c <= '9'
  }

  predicate AllDigits(s: string)
  {
    forall i :: 0 <= i < |s| ==> IsDigit(s[i])
  }

  function DigitChar(d: nat): (c: char)
    requires d < 10
    ensures IsDigit(c) && (c - '0') as nat == d
  {
    "0123456789"[d]
  }

  /** `str(n)` for `n >= 0`: decimal digits, most significant first, no leading zero. */
  function NatToString(n: nat): (s: string)
    ensures |s| >= 1 && AllDigits(s)
    ensures |s| > 1 ==> s[0] != '0'
    ensures n < 10 <==> |s| == 1
  {
    if n < 10 then [DigitChar(n)]
    else NatToString(n / 10) + [DigitChar(n % 10)]
  }

  /** The value a string of decimal digits denotes. */
  function DigitsValue(s: string): nat
    requires AllDigits(s)
  {
    if |s| == 0 then 0
    else DigitsValue(s[..|s| - 1]) * 10 + (s[|s| - 1] - '0') as nat
  }

  /** Reading back the digits `str(n)` writes gives `n`. */
  lemma {:induction false} NatToStringRoundTrip(n: nat)
    ensures DigitsValue(NatToString(n)) == n
  {
    if n >= 10 {
      NatToStringRoundTrip(n / 10);
      var s := NatToString(n);
      assert s[..|s| - 1] == NatToString(n / 10);
    }
  }

  /** `sep.join(parts)`: the parts in order with `sep` between neighbours. */
  function Join(sep: string, parts: seq<string>): string
  {
    if |parts| == 0 then ""
    else if |parts| == 1 then parts[0]
    else parts[0] + sep + Join(sep, parts[1..])
  }

  /** The separator the annotation uses between entries. */
  const Break: string := "<br>"

  /** `s.split("<br>")`: the pieces between the leftmost non-overlapping occurrences of `"<br>"`. */
  function SplitBreaks(s: string): (parts: seq<string>)
    ensures |parts| >= 1
  {
    if |s| < |Break| then [s]
    else if s[..|Break|] == Break then [""] + SplitBreaks(s[|Break|..])
    else
      var rest := SplitBreaks(s[1..]);
      [[s[0]] + rest[0]] + rest[1..]
  }

  /**
   * No `'<'` in `p` is followed by `'b'` or ends `p`. Then `"<br>"` occurs
   * neither inside `p` nor across the boundary from `p` into a following
   * `"<br>"`.
   */
  predicate BreakFree(p: string)
  {
    forall i :: 0 <= i < |p| && p[i] == '<' ==> i + 1 < |p| && p[i + 1] != 'b'
  }

  lemma {:induction false} SplitOfBreakFree(p: string)
    requires BreakFree(p)
    ensures SplitBreaks(p) == [p]
  {
    if |p| >= |Break| {
      assert p[..|Break|] != Break by {
        assert p[0] == '<' ==> p[1] != 'b';
      }
      SplitOfBreakFree(p[1..]);
      assert [p[0]] + p[1..] == p;
    }
  }

  lemma {:induction false} SplitOfBreakFreePrefix(p: string, rest: string)
    requires BreakFree(p)
    ensures SplitBreaks(p + Break + rest) == [p] + SplitBreaks(rest)
  {
    var s := p + Break + rest;
    if |p| == 0 {
      assert s[..|Break|] == Break;
      assert s[|Break|..] == rest;
    } else {
      assert s[..|Break|] != Break by {
        assert s[0] == p[0];
        assert p[0] == '<' ==> s[1] == p[1] && p[1] != 'b';
      }
      SplitOfBreakFreePrefix(p[1..], rest);
      assert s[1..] == p[1..] + Break + rest;
      assert [p[0]] + p[1..] == p;
    }
  }

  /** Splitting a `"<br>"`-join of break-free parts gives the parts back. */
  lemma {:induction false} SplitJoin(parts: seq<string>)
    requires |parts| >= 1
    requires forall i :: 0 <= i < |parts| ==> BreakFree(parts[i])
    ensures SplitBreaks(Join(Break, parts)) == parts
  {
    if |parts| == 1 {
      SplitOfBreakFree(parts[0]);
    } else {
      SplitJoin(parts[1..]);
      SplitOfBreakFreePrefix(parts[0], Join(Break, parts[1..]));
      assert [parts[0]] + parts[1..] == parts;
    }
  }
}
