/**
 * Date strings of the signup bot: the stored form `yyyy-mm-dd`, the short
 * form `m/d` users type, and the helpers converting between them. The year a
 * short date falls in is the current calendar year, passed in as `year`.
 */
module Dates {
  import opened Text

  /** `pad2(n)`: `String(n).padStart(2, '0')`. */
  function Pad2(n: nat): (s: string)
    ensures AllDigits(s) && DigitsValue(s) == n
    ensures n < 100 ==> |s| == 2
    ensures n >= 10 ==> s == NatToString(n)
  {
    var t := NatToString(n);
    if |t| < 2 then LeadingZero(t); "0" + t else t
  }

  /** Every two-digit field is what `pad2` writes for its value. */
  lemma Pad2OfDigits(t: string)
    requires |t| == 2 && AllDigits(t)
    ensures Pad2(DigitsValue(t)) == t
  {
    if t[0] == '0' {
      var u := t[1..];
      assert t == "0" + u;
      LeadingZero(u);
      NatToStringOfDigits(u);
    } else {
      NatToStringOfDigits(t);
    }
  }

  /** `/^\d{4}-\d{2}-\d{2}$/` */
  predicate IsYMD(s: string) {
    |s| == 10 && AllDigits(s[..4]) && s[4] == '-' && AllDigits(s[5..7]) && s[7] == '-' && AllDigits(s[8..])
  }

  /** The length of the month field of a short date: `\d{1,2}` before the slash. */
  function MonthLength(s: string): nat { SpanDigits(s) }

  /** `/^\d{1,2}\/\d{1,2}$/` */
  predicate IsMD(s: string) {
    var p := MonthLength(s);
    1 <= p <= 2 && p < |s| && s[p] == '/' && 1 <= |s| - p - 1 <= 2 && AllDigits(s[p + 1..])
  }

  /** The two numbers `md.split('/').map(v => parseInt(v, 10))` reads from a short date. */
  function MonthOf(md: string): nat
    requires IsMD(md)
  {
    DigitsValue(md[..MonthLength(md)])
  }

  function DayOf(md: string): nat
    requires IsMD(md)
  {
    DigitsValue(md[MonthLength(md) + 1..])
  }

  /** `toYYYYMMDDFromMD(md)`: the short date in the given year, month and day padded to two digits. */
  function ToYMDFromMD(md: string, year: nat): (r: string)
    requires IsMD(md)
    ensures 1000 <= year <= 9999 ==> IsYMD(r)
    ensures 1000 <= year <= 9999 ==>
      DigitsValue(r[..4]) == year && DigitsValue(r[5..7]) == MonthOf(md) && DigitsValue(r[8..]) == DayOf(md)
  {
    var p := MonthLength(md);
    ShortDigitsValue(md[..p]);
    ShortDigitsValue(md[p + 1..]);
    var y, m, d := NatToString(year), Pad2(MonthOf(md)), Pad2(DayOf(md));
    var r := y + "-" + m + "-" + d;
    assert |y| == 4 ==> r[..4] == y && r[5..7] == m && r[8..] == d;
    r
  }

  /** `mdDisp(ymd)`: month and day of a stored date, without leading zeros, as `m/d`. */
  function MdDisp(ymd: string): (r: string)
    requires IsYMD(ymd)
    ensures IsMD(r)
    ensures MonthOf(r) == DigitsValue(ymd[5..7]) && DayOf(r) == DigitsValue(ymd[8..])
  {
    ShortDigitsValue(ymd[5..7]);
    ShortDigitsValue(ymd[8..]);
    var m, d := NatToString(DigitsValue(ymd[5..7])), NatToString(DigitsValue(ymd[8..]));
    var r := m + "/" + d;
    assert r == m + ("/" + d);
    assert MonthLength(r) == |m| by {
      SpanDigitsOf(m, "/" + d);
    }
    assert r[..|m|] == m && r[|m| + 1..] == d;
    assert |m| <= 2 && |d| <= 2;
    r
  }

  /** A month or day field written without a leading zero (a lone "0" included). */
  predicate Canonical(t: string) {
    |t| >= 1 && AllDigits(t) && (|t| == 1 || t[0] != '0')
  }

  /** Turning a short date into a stored date and back gives it again, leading zeros dropped. */
  lemma MdDispOfToYMD(md: string, year: nat)
    requires IsMD(md) && 1000 <= year <= 9999
    ensures MdDisp(ToYMDFromMD(md, year)) == NatToString(MonthOf(md)) + "/" + NatToString(DayOf(md))
    ensures Canonical(md[..MonthLength(md)]) && Canonical(md[MonthLength(md) + 1..]) ==>
      MdDisp(ToYMDFromMD(md, year)) == md
  {
    var p := MonthLength(md);
    var y := ToYMDFromMD(md, year);
    assert DigitsValue(y[5..7]) == MonthOf(md) && DigitsValue(y[8..]) == DayOf(md);
    assert MdDisp(y) == NatToString(MonthOf(md)) + "/" + NatToString(DayOf(md));
    if Canonical(md[..p]) && Canonical(md[p + 1..]) {
      CanonicalShortDate(md);
    }
  }

  /** A short date without leading zeros is what `String` writes for its two numbers. */
  lemma CanonicalShortDate(md: string)
    requires IsMD(md) && Canonical(md[..MonthLength(md)]) && Canonical(md[MonthLength(md) + 1..])
    ensures NatToString(MonthOf(md)) + "/" + NatToString(DayOf(md)) == md
  {
    var p := MonthLength(md);
    var a, b := md[..p], md[p + 1..];
    NatToStringOfDigits(a);
    NatToStringOfDigits(b);
    assert md[p..] == [md[p]] + b;
    assert md == a + md[p..];
  }

  /** A stored date of the given year survives the trip through its short form. */
  lemma ToYMDOfMdDisp(ymd: string, year: nat)
    requires IsYMD(ymd) && ymd[0] != '0' && DigitsValue(ymd[..4]) == year
    ensures ToYMDFromMD(MdDisp(ymd), year) == ymd
  {
    var md := MdDisp(ymd);
    assert ymd[..4][0] == ymd[0];
    NatToStringOfDigits(ymd[..4]);
    Pad2OfDigits(ymd[5..7]);
    Pad2OfDigits(ymd[8..]);
    assert ymd == ymd[..4] + "-" + ymd[5..7] + "-" + ymd[8..];
  }
}
