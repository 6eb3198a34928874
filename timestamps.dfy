/** MediaWiki revision timestamps (`rev_timestamp`) as the two maintenance
    scripts compare them: quoted strings in the compact `YYYYMMDDhhmmss`
    form, ordered as the database orders binary strings (character by
    character, a proper prefix before any longer string). */
module Timestamps {

  type Timestamp = seq<char>

  /** The cutoff both scripts quote: midnight of August 9, 2019. */
  const Cutoff: Timestamp := "20190809000000"

  /** Lexicographic "strictly before" on character strings. */
  predicate Less(a: Timestamp, b: Timestamp)
    decreases |a|
  {
    if |b| == 0 then false
    else if |a| == 0 then true
    else if a[0] != b[0] then a[0] < b[0]
    else Less(a[1..], b[1..])
  }

  lemma {:induction false} LessIrreflexive(a: Timestamp)
    ensures !Less(a, a)
    decreases |a|
  {
    if |a| > 0 {
      LessIrreflexive(a[1..]);
    }
  }

  lemma {:induction false} LessTransitive(a: Timestamp, b: Timestamp, c: Timestamp)
    requires Less(a, b) && Less(b, c)
    ensures Less(a, c)
    decreases |a|
  {
    if |a| > 0 && a[0] == b[0] && b[0] == c[0] {
      LessTransitive(a[1..], b[1..], c[1..]);
    }
  }

  /** Any two distinct timestamps are ordered one way or the other, and
      never both ways. */
  lemma {:induction false} LessTrichotomy(a: Timestamp, b: Timestamp)
    ensures a == b || Less(a, b) || Less(b, a)
    ensures !(Less(a, b) && Less(b, a))
    decreases |a|
  {
    if |a| > 0 && |b| > 0 && a[0] == b[0] {
      LessTrichotomy(a[1..], b[1..]);
      if a[1..] == b[1..] {
        assert a == [a[0]] + a[1..] && b == [b[0]] + b[1..];
      }
    }
  }

  /** A common prefix does not change the comparison. */
  lemma {:induction false} LessUnderCommonPrefix(p: Timestamp, a: Timestamp, b: Timestamp)
    ensures Less(p + a, p + b) <==> Less(a, b)
    decreases |p|
  {
    if |p| == 0 {
      assert p + a == a && p + b == b;
    } else {
      assert (p + a)[0] == p[0] == (p + b)[0];
      assert (p + a)[1..] == p[1..] + a && (p + b)[1..] == p[1..] + b;
      LessUnderCommonPrefix(p[1..], a, b);
    }
  }

  /** Transitivity for every triple at once, for use inside expressions. */
  lemma LessIsTransitive()
    ensures forall a: Timestamp, b: Timestamp, c: Timestamp :: Less(a, b) && Less(b, c) ==> Less(a, c)
  {
    forall a: Timestamp, b: Timestamp, c: Timestamp | Less(a, b) && Less(b, c)
      ensures Less(a, c)
    {
      LessTransitive(a, b, c);
    }
  }

  // ---------------------------------------------------------------------
  // The fixed-width assumption: on digit strings of one common length the
  // string order is the numeric order of the digits they spell.

  predicate IsDigit(c: char) { '0' <= c <= '9' }

  predicate IsDigits(s: seq<char>) { forall i :: 0 <= i < |s| ==> IsDigit(s[i]) }

  function Digit(c: char): nat
    requires IsDigit(c)
  {
    (c as int) - ('0' as int)
  }

  function Pow10(n: nat): (p: nat)
    ensures p >= 1
  {
    if n == 0 then 1 else 10 * Pow10(n - 1)
  }

  /** The number a digit string spells, most significant digit first. */
  function Value(s: seq<char>): nat
    requires IsDigits(s)
  {
    if s == [] then 0 else Digit(s[0]) * Pow10(|s| - 1) + Value(s[1..])
  }

  lemma MulMonotone(x: nat, y: nat, p: nat)
    requires x <= y
    ensures x * p <= y * p
  {
  }

  /** The place-value step: a digit times a power of ten plus anything
      below that power stays below the next power. */
  lemma DigitPlaceBound(d: nat, v: nat, p: nat)
    requires d <= 9 && v < p
    ensures d * p + v < 10 * p
  {
    MulMonotone(d, 9, p);
  }

  lemma {:induction false} ValueBelowPow10(s: seq<char>)
    requires IsDigits(s)
    ensures Value(s) < Pow10(|s|)
  {
    if s != [] {
      ValueBelowPow10(s[1..]);
      DigitPlaceBound(Digit(s[0]), Value(s[1..]), Pow10(|s| - 1));
    }
  }

  /** A smaller leading digit wins whatever follows it. */
  lemma DigitPlaceOrder(da: nat, db: nat, ra: nat, rb: nat, p: nat)
    requires da < db && ra < p
    ensures da * p + ra < db * p + rb
  {
    MulMonotone(da + 1, db, p);
    assert (da + 1) * p == da * p + p;
  }

  /** A leading digit that is smaller decides the numeric comparison,
      whatever follows. */
  lemma LeadingDigitDecides(a: seq<char>, b: seq<char>)
    requires IsDigits(a) && IsDigits(b) && |a| == |b| > 0
    requires a[0] < b[0]
    ensures Value(a) < Value(b)
  {
    ValueBelowPow10(a[1..]);
    DigitPlaceOrder(Digit(a[0]), Digit(b[0]), Value(a[1..]), Value(b[1..]), Pow10(|a| - 1));
  }

  lemma {:induction false} LessIsNumericOrder(a: Timestamp, b: Timestamp)
    requires IsDigits(a) && IsDigits(b) && |a| == |b|
    ensures Less(a, b) <==> Value(a) < Value(b)
    decreases |a|
  {
    if |a| > 0 {
      if a[0] == b[0] {
        LessIsNumericOrder(a[1..], b[1..]);
      } else if a[0] < b[0] {
        LeadingDigitDecides(a, b);
      } else {
        LeadingDigitDecides(b, a);
      }
    }
  }

  /** A well-formed timestamp: fourteen digits, like the cutoff. */
  predicate WellFormed(t: Timestamp) { |t| == 14 && IsDigits(t) }

  lemma CutoffIsWellFormed()
    ensures WellFormed(Cutoff)
  {
  }

  /** Under the fixed-width assumption the quoted-string comparisons of
      both scripts are chronological comparisons with the cutoff. */
  lemma CutoffComparisonIsNumeric(t: Timestamp)
    requires WellFormed(t)
    ensures Less(Cutoff, t) <==> Value(Cutoff) < Value(t)
    ensures Less(t, Cutoff) <==> Value(t) < Value(Cutoff)
  {
    CutoffIsWellFormed();
    LessIsNumericOrder(Cutoff, t);
    LessIsNumericOrder(t, Cutoff);
  }

  /** Without that assumption it is not: an ISO-style stamp of August 10,
      2019 sorts before the cutoff, because '-' sorts before '0'. */
  lemma IsoStampSortsBeforeCutoff()
    ensures Less("2019-08-10", Cutoff)
  {
    assert "2019-08-10" == "2019" + "-08-10" && Cutoff == "2019" + "0809000000";
    LessUnderCommonPrefix("2019", "-08-10", "0809000000");
  }

  /** The three stamps of the worked example (August 1, August 10 and
      September 1, 2019) against the cutoff. */
  lemma AugustFirstIsBeforeCutoff()
    ensures Less("20190801000000", Cutoff)
  {
    var p: Timestamp := "201908";
    assert "20190801000000" == p + "01000000" && Cutoff == p + "09000000";
    LessUnderCommonPrefix(p, "01000000", "09000000");
  }

  lemma AugustTenthIsAfterCutoff()
    ensures Less(Cutoff, "20190810000000")
  {
    var p: Timestamp := "201908";
    assert "20190810000000" == p + "10000000" && Cutoff == p + "09000000";
    LessUnderCommonPrefix(p, "09000000", "10000000");
  }

  lemma SeptemberFirstIsAfterCutoff()
    ensures Less(Cutoff, "20190901000000")
  {
    var p: Timestamp := "2019";
    assert "20190901000000" == p + "0901000000" && Cutoff == p + "0809000000";
    LessUnderCommonPrefix(p, "0809000000", "0901000000");
  }
}
