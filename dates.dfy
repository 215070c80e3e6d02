/** Due dates as the `YYYY-MM-DD` strings a date input produces, and the order the
    Due Date sort uses on them: the lexicographic order of the strings, which on
    well-formed dates is the order of the calendar. */
module Dates {

  /** Strict lexicographic order on strings, character by character. */
  predicate LexLess(a: string, b: string) {
    if a == [] then b != []
    else if b == [] then false
    else a[0] < b[0] || (a[0] == b[0] && LexLess(a[1..], b[1..]))
  }

  lemma {:induction false} LexLessIrreflexive(a: string)
    ensures !LexLess(a, a)
  {
    if a != [] { LexLessIrreflexive(a[1..]); }
  }

  lemma {:induction false} LexLessTransitive(a: string, b: string, c: string)
    requires LexLess(a, b) && LexLess(b, c)
    ensures LexLess(a, c)
  {
    if a != [] && b != [] && c != [] && a[0] == b[0] && b[0] == c[0] {
      LexLessTransitive(a[1..], b[1..], c[1..]);
    }
  }

  lemma {:induction false} LexLessTotal(a: string, b: string)
    requires a != b
    ensures LexLess(a, b) || LexLess(b, a)
  {
    if a != [] && b != [] && a[0] == b[0] {
      assert a == [a[0]] + a[1..] && b == [b[0]] + b[1..];
      LexLessTotal(a[1..], b[1..]);
    }
  }

  /** Strings that agree up to position `k` and differ there are ordered by the characters at `k`. */
  lemma {:induction false} LexLessAt(a: string, b: string, k: nat)
    requires k < |a| && k < |b| && a[..k] == b[..k] && a[k] < b[k]
    ensures LexLess(a, b)
  {
    if k > 0 {
      assert a[0] == a[..k][0] && b[0] == b[..k][0];
      assert a[1..][..k - 1] == a[..k][1..] && b[1..][..k - 1] == b[..k][1..];
      LexLessAt(a[1..], b[1..], k - 1);
    }
  }

  /** Comparing two concatenations whose first parts have the same length compares the
      first parts, and only where they are equal the second parts. */
  lemma {:induction false} LexLessConcat(x: string, y: string, x': string, y': string)
    requires |x| == |x'|
    ensures LexLess(x + y, x' + y') == if x == x' then LexLess(y, y') else LexLess(x, x')
  {
    if x != [] {
      assert (x + y)[0] == x[0] && (x + y)[1..] == x[1..] + y;
      assert (x' + y')[0] == x'[0] && (x' + y')[1..] == x'[1..] + y';
      assert x == [x[0]] + x[1..] && x' == [x'[0]] + x'[1..];
      LexLessConcat(x[1..], y, x'[1..], y');
    } else {
      assert x + y == y && x' + y' == y';
    }
  }

  predicate IsDigit(c: char) { '0' <= c <= '9' }

  predicate AllDigits(s: string) { forall i :: 0 <= i < |s| ==> IsDigit(s[i]) }

  function Pow10(n: nat): (r: nat)
    ensures r >= 1
  {
    if n == 0 then 1 else 10 * Pow10(n - 1)
  }

  /** The number a string of decimal digits denotes. */
  function Number(s: string): (r: nat)
    requires AllDigits(s)
    ensures r < Pow10(|s|)
  {
    if s == [] then 0
    else
      var d := s[0] as int - '0' as int;
      var p := Pow10(|s| - 1);
      assert d * p <= 9 * p;
      d * p + Number(s[1..])
  }

  /** Comparing a field first, and the rest only where the fields are equal, is comparing
      their key `field * scale + rest`, as long as the rest stays below `scale`. */
  lemma KeyOrder(f: int, f': int, scale: int, rest: int, rest': int)
    requires 0 <= rest < scale && 0 <= rest' < scale
    ensures f < f' ==> f * scale + rest < f' * scale + rest'
    ensures f == f' ==> (rest < rest' <==> f * scale + rest < f' * scale + rest')
  {
    if f < f' {
      assert (f + 1) * scale <= f' * scale;
    }
  }

  /** On digit strings of one length, lexicographic order is numeric order. */
  lemma {:induction false} DigitsOrder(a: string, b: string)
    requires |a| == |b| && AllDigits(a) && AllDigits(b)
    ensures LexLess(a, b) <==> Number(a) < Number(b)
  {
    if a != [] {
      var p := Pow10(|a| - 1);
      var da, db := a[0] as int - '0' as int, b[0] as int - '0' as int;
      assert Number(a) == da * p + Number(a[1..]) && Number(b) == db * p + Number(b[1..]);
      KeyOrder(da, db, p, Number(a[1..]), Number(b[1..]));
      KeyOrder(db, da, p, Number(b[1..]), Number(a[1..]));
      if da == db {
        DigitsOrder(a[1..], b[1..]);
      }
    }
  }

  /** Distinct digit strings of one length denote distinct numbers. */
  lemma DigitsInjective(a: string, b: string)
    requires |a| == |b| && AllDigits(a) && AllDigits(b) && a != b
    ensures Number(a) != Number(b)
  {
    LexLessTotal(a, b);
    DigitsOrder(a, b);
    DigitsOrder(b, a);
  }

  /** The shape of the value of an HTML date input: four, two and two digits separated by dashes. */
  predicate IsIsoDate(s: string) {
    |s| == 10 && s[4] == '-' && s[7] == '-'
    && AllDigits(s[..4]) && AllDigits(s[5..7]) && AllDigits(s[8..])
  }

  /** The calendar position of a well-formed date: year, month and day read as one number,
      so that an earlier year, or the same year and an earlier month, and so on, is smaller. */
  function CalendarKey(s: string): nat
    requires IsIsoDate(s)
  {
    Number(s[..4]) * 10000 + Number(s[5..7]) * 100 + Number(s[8..])
  }

  /** The three fields of a well-formed date, as strings, with the dashes between them. */
  lemma DateParts(s: string)
    requires IsIsoDate(s)
    ensures s == s[..4] + (s[4..5] + (s[5..7] + (s[7..8] + s[8..])))
    ensures s[4..5] == "-" && s[7..8] == "-"
  {
  }

  /** For well-formed dates, the lexicographic order of the strings is the chronological order. */
  lemma DateOrderIsChronological(a: string, b: string)
    requires IsIsoDate(a) && IsIsoDate(b)
    ensures LexLess(a, b) <==> CalendarKey(a) < CalendarKey(b)
  {
    DateParts(a);
    DateParts(b);
    var ya, ma, da := a[..4], a[5..7], a[8..];
    var yb, mb, db := b[..4], b[5..7], b[8..];
    LexLessConcat(ya, a[4..5] + (ma + (a[7..8] + da)), yb, b[4..5] + (mb + (b[7..8] + db)));
    LexLessConcat(a[4..5], ma + (a[7..8] + da), b[4..5], mb + (b[7..8] + db));
    LexLessConcat(ma, a[7..8] + da, mb, b[7..8] + db);
    LexLessConcat(a[7..8], da, b[7..8], db);
    DigitsOrder(ya, yb);
    DigitsOrder(yb, ya);
    DigitsOrder(ma, mb);
    DigitsOrder(mb, ma);
    DigitsOrder(da, db);
    assert Pow10(2) == 100 && Pow10(4) == 10000;
    var md, md' := Number(ma) * 100 + Number(da), Number(mb) * 100 + Number(db);
    KeyOrder(Number(ma), Number(mb), 100, Number(da), Number(db));
    KeyOrder(Number(mb), Number(ma), 100, Number(db), Number(da));
    KeyOrder(Number(ya), Number(yb), 10000, md, md');
    KeyOrder(Number(yb), Number(ya), 10000, md', md);
    if ya != yb { DigitsInjective(ya, yb); }
    if ma != mb { DigitsInjective(ma, mb); }
  }

  /** Distinct well-formed dates have distinct calendar keys. */
  lemma CalendarKeyInjective(a: string, b: string)
    requires IsIsoDate(a) && IsIsoDate(b) && a != b
    ensures CalendarKey(a) != CalendarKey(b)
  {
    LexLessTotal(a, b);
    DateOrderIsChronological(a, b);
    DateOrderIsChronological(b, a);
  }
}
