/** Close-approach dates as the app keeps them: `yyyy-MM-dd` text (the API_QUERY_DATE_FORMAT
    constant), stored in a TEXT column and compared by SQLite under its default BINARY
    collation, that is character by character, a proper prefix sorting first. */
module Dates {

  /** `a < b` between two TEXT values in SQL. */
  predicate TextLess(a: string, b: string)
    decreases |a|
  {
    if |a| == 0 then |b| > 0
    else if |b| == 0 then false
    else if a[0] != b[0] then a[0] < b[0]
    else TextLess(a[1..], b[1..])
  }

  lemma {:induction false} TextLessIrreflexive(a: string)
    ensures !TextLess(a, a)
    decreases |a|
  {
    if |a| > 0 {
      TextLessIrreflexive(a[1..]);
    }
  }

  lemma {:induction false} TextLessTransitive(a: string, b: string, c: string)
    requires TextLess(a, b) && TextLess(b, c)
    ensures TextLess(a, c)
    decreases |a|
  {
    if |a| > 0 && a[0] == b[0] && b[0] == c[0] {
      TextLessTransitive(a[1..], b[1..], c[1..]);
    }
  }

  /** Any two distinct texts are ordered one way, and never both ways. */
  lemma {:induction false} TextLessTrichotomy(a: string, b: string)
    ensures a == b || TextLess(a, b) || TextLess(b, a)
    ensures !(TextLess(a, b) && TextLess(b, a))
    decreases |a|
  {
    if |a| > 0 && |b| > 0 && a[0] == b[0] {
      TextLessTrichotomy(a[1..], b[1..]);
      if a[1..] == b[1..] {
        assert a == [a[0]] + a[1..] && b == [b[0]] + b[1..];
      }
    }
  }

  /** `a >= b` between two TEXT values is a transitive relation. */
  lemma TextAtLeastTransitive(a: string, b: string, c: string)
    requires !TextLess(a, b) && !TextLess(b, c)
    ensures !TextLess(a, c)
  {
  }

  /** Comparing two concatenations whose first parts have equal length compares the first
      parts, and the second parts only when the first parts are equal. */
  lemma {:induction false} TextLessAppend(p: string, x: string, q: string, y: string)
    requires |p| == |q|
    ensures TextLess(p + x, q + y) <==> TextLess(p, q) || (p == q && TextLess(x, y))
    decreases |p|
  {
    if |p| == 0 {
      assert p + x == x && q + y == y;
    } else {
      assert (p + x)[1..] == p[1..] + x && (q + y)[1..] == q[1..] + y;
      TextLessAppend(p[1..], x, q[1..], y);
      if p[0] == q[0] && p[1..] == q[1..] {
        assert p == [p[0]] + p[1..] && q == [q[0]] + q[1..];
      }
    }
  }

  predicate IsDigit(c: char) { '0' <= c <= '9' }

  predicate AllDigits(s: string) { forall i :: 0 <= i < |s| ==> IsDigit(s[i]) }

  function DigitValue(c: char): (d: nat)
    requires IsDigit(c)
    ensures d < 10
  {
    (c as int) - ('0' as int)
  }

  function Pow10(n: nat): (p: nat)
    ensures p > 0
  {
    if n == 0 then 1 else 10 * Pow10(n - 1)
  }

  /** The decimal number a string of digits spells. */
  function DigitsValue(s: string): nat
    requires AllDigits(s)
    decreases |s|
  {
    if s == [] then 0 else DigitValue(s[0]) * Pow10(|s| - 1) + DigitsValue(s[1..])
  }

  lemma {:induction false} DigitsValueBound(s: string)
    requires AllDigits(s)
    ensures DigitsValue(s) < Pow10(|s|)
    decreases |s|
  {
    if s != [] {
      DigitsValueBound(s[1..]);
      var d, p := DigitValue(s[0]), Pow10(|s| - 1);
      LeadingTermBound(d, 9, p, DigitsValue(s[1..]));
      assert Pow10(|s|) == 10 * p;
    }
  }

  /** A leading digit `d` weighted by `p`, followed by less than `p`, stays below the weight
      of the next larger digit. */
  lemma {:induction false} LeadingTermBound(d: nat, e: nat, p: nat, rest: nat)
    requires d <= e && rest < p
    ensures d * p + rest < (e + 1) * p
    decreases e - d
  {
    if d < e {
      LeadingTermBound(d, e - 1, p, rest);
      assert (e + 1) * p == e * p + p;
    }
  }

  /** Between digit strings of one length, text order is numeric order. */
  lemma {:induction false} DigitsOrder(s: string, t: string)
    requires AllDigits(s) && AllDigits(t) && |s| == |t|
    ensures TextLess(s, t) <==> DigitsValue(s) < DigitsValue(t)
    ensures s == t <==> DigitsValue(s) == DigitsValue(t)
  {
    TextLessTrichotomy(s, t);
    if TextLess(s, t) {
      DigitsLessValue(s, t);
    } else if TextLess(t, s) {
      DigitsLessValue(t, s);
    }
  }

  lemma {:induction false} DigitsLessValue(s: string, t: string)
    requires AllDigits(s) && AllDigits(t) && |s| == |t|
    requires TextLess(s, t)
    ensures DigitsValue(s) < DigitsValue(t)
    decreases |s|
  {
    var p := Pow10(|s| - 1);
    var ds, dt := DigitValue(s[0]), DigitValue(t[0]);
    assert AllDigits(s[1..]) && AllDigits(t[1..]);
    assert DigitsValue(s) == ds * p + DigitsValue(s[1..]);
    assert DigitsValue(t) == dt * p + DigitsValue(t[1..]);
    if s[0] == t[0] {
      DigitsLessValue(s[1..], t[1..]);
    } else {
      DigitsValueBound(s[1..]);
      LeadingTermBound(ds, dt - 1, p, DigitsValue(s[1..]));
    }
  }

  /** The `yyyy-MM-dd` shape of API_QUERY_DATE_FORMAT. */
  predicate WellFormedDate(s: string)
  {
    && |s| == 10 && s[4] == '-' && s[7] == '-'
    && AllDigits(s[..4]) && AllDigits(s[5..7]) && AllDigits(s[8..])
  }

  function Year(s: string): nat requires WellFormedDate(s) { DigitsValue(s[..4]) }
  function Month(s: string): nat requires WellFormedDate(s) { DigitsValue(s[5..7]) }
  function Day(s: string): nat requires WellFormedDate(s) { DigitsValue(s[8..]) }

  /** Calendar order on the year, month and day fields of well-formed dates. */
  predicate CalendarBefore(a: string, b: string)
    requires WellFormedDate(a) && WellFormedDate(b)
  {
    || Year(a) < Year(b)
    || (Year(a) == Year(b) && Month(a) < Month(b))
    || (Year(a) == Year(b) && Month(a) == Month(b) && Day(a) < Day(b))
  }

  /** For well-formed dates the SQL text comparison the queries use is calendar order, and
      text equality is equality of the calendar fields. */
  lemma DateOrderIsCalendarOrder(a: string, b: string)
    requires WellFormedDate(a) && WellFormedDate(b)
    ensures TextLess(a, b) <==> CalendarBefore(a, b)
    ensures a == b <==> (Year(a) == Year(b) && Month(a) == Month(b) && Day(a) == Day(b))
  {
    DigitsOrder(a[..4], b[..4]);
    DigitsOrder(a[5..7], b[5..7]);
    DigitsOrder(a[8..], b[8..]);
    assert a == a[..4] + a[4..] && b == b[..4] + b[4..];
    TextLessAppend(a[..4], a[4..], b[..4], b[4..]);
    assert a[4..] == [a[4]] + a[5..] && b[4..] == [b[4]] + b[5..];
    assert TextLess(a[4..], b[4..]) <==> TextLess(a[5..], b[5..]);
    assert a[5..] == a[5..7] + a[7..] && b[5..] == b[5..7] + b[7..];
    TextLessAppend(a[5..7], a[7..], b[5..7], b[7..]);
    assert a[7..] == [a[7]] + a[8..] && b[7..] == [b[7]] + b[8..];
    assert TextLess(a[7..], b[7..]) <==> TextLess(a[8..], b[8..]);
    if a[..4] == b[..4] && a[5..7] == b[5..7] && a[8..] == b[8..] {
      assert a == a[..4] + [a[4]] + a[5..7] + [a[7]] + a[8..];
      assert b == b[..4] + [b[4]] + b[5..7] + [b[7]] + b[8..];
    }
  }
}
