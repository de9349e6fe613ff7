/**
 * Time ranges such as `18:00-20:00`. Two patterns of the bot read them: the
 * end-of-event check accepts `/^\s*(\d{1,2}):(\d{2})\s*-\s*(\d{1,2}):(\d{2})\s*$/`
 * and the `/new` command accepts `/^\d{1,2}:\d{2}\s*-\s*\d{1,2}:\d{2}$/`.
 * Both are recognised here by a scanner that returns the matched pieces.
 */
module TimeRange {
  import opened Text
  import opened Wrappers

  /** A clock reading `h:mm` split off the front of a string, with what follows it. */
  datatype Clock = Clock(hour: string, minute: string, rest: string)

  predicate HourField(t: string) { 1 <= |t| <= 2 && AllDigits(t) }
  predicate MinuteField(t: string) { |t| == 2 && AllDigits(t) }

  /** `(\d{1,2}):(\d{2})` at the front of `s`. */
  function ScanClock(s: string): (r: Option<Clock>)
    ensures r.Some? ==> HourField(r.value.hour) && MinuteField(r.value.minute)
    ensures r.Some? ==> s == r.value.hour + ":" + r.value.minute + r.value.rest
  {
    var p := SpanDigits(s);
    if 1 <= p <= 2 && p + 3 <= |s| && s[p] == ':' && IsDigit(s[p + 1]) && IsDigit(s[p + 2]) then
      assert s == s[..p] + ":" + s[p + 1..p + 3] + s[p + 3..];
      Some(Clock(s[..p], s[p + 1..p + 3], s[p + 3..]))
    else None
  }

  lemma ScanClockOf(h: string, m: string, rest: string)
    requires HourField(h) && MinuteField(m)
    ensures ScanClock(h + ":" + m + rest) == Some(Clock(h, m, rest))
  {
    var s := h + ":" + m + rest;
    assert s == h + (":" + m + rest);
    SpanDigitsOf(h, ":" + m + rest);
    assert s[..|h|] == h && s[|h| + 1..|h| + 3] == m && s[|h| + 3..] == rest;
  }

  /** What follows the start clock: blanks, `-`, blanks, the end clock, blanks. */
  datatype Tail = Tail(gapBefore: string, gapAfter: string, endHour: string, endMinute: string, trail: string)

  predicate TailWellFormed(t: Tail) {
    AllSpace(t.gapBefore) && AllSpace(t.gapAfter)
    && HourField(t.endHour) && MinuteField(t.endMinute) && AllSpace(t.trail)
  }

  function RenderTail(t: Tail): string {
    t.gapBefore + ("-" + (t.gapAfter + (t.endHour + ":" + t.endMinute + t.trail)))
  }

  /** `\s*-\s*(\d{1,2}):(\d{2})\s*$` */
  function ScanTail(s: string): (r: Option<Tail>)
    ensures r.Some? ==> TailWellFormed(r.value) && RenderTail(r.value) == s
  {
    var b := SpanSpace(s);
    if b < |s| && s[b] == '-' then
      var r2 := s[b + 1..];
      var c := SpanSpace(r2);
      var c2 := ScanClock(r2[c..]);
      if c2.Some? && AllSpace(c2.value.rest) then
        RenderTailOf(s, b, c, c2.value);
        Some(Tail(s[..b], r2[..c], c2.value.hour, c2.value.minute, c2.value.rest))
      else None
    else None
  }

  lemma RenderTailOf(s: string, b: nat, c: nat, k: Clock)
    requires b < |s| && s[b] == '-' && c <= |s[b + 1..]|
    requires s[b + 1..][c..] == k.hour + ":" + k.minute + k.rest
    ensures RenderTail(Tail(s[..b], s[b + 1..][..c], k.hour, k.minute, k.rest)) == s
  {
    var r2 := s[b + 1..];
    assert r2 == r2[..c] + r2[c..];
    assert s == s[..b] + ("-" + r2);
  }

  lemma ScanTailComplete(t: Tail)
    requires TailWellFormed(t)
    ensures ScanTail(RenderTail(t)) == Some(t)
  {
    var clock := t.endHour + ":" + t.endMinute + t.trail;
    var r2 := t.gapAfter + clock;
    var s := t.gapBefore + ("-" + r2);
    assert s == RenderTail(t);
    SpanSpaceOf(t.gapBefore, "-" + r2);
    assert s[..|t.gapBefore|] == t.gapBefore && s[|t.gapBefore|] == '-';
    assert s[|t.gapBefore| + 1..] == r2;
    SpanSpaceOf(t.gapAfter, clock);
    assert r2[..|t.gapAfter|] == t.gapAfter && r2[|t.gapAfter|..] == clock;
    ScanClockOf(t.endHour, t.endMinute, t.trail);
  }

  /** The pieces of a whole time range: blanks, the start clock, and the tail. */
  datatype Syntax = Syntax(lead: string, startHour: string, startMinute: string, tail: Tail)

  predicate WellFormed(x: Syntax) {
    AllSpace(x.lead) && HourField(x.startHour) && MinuteField(x.startMinute) && TailWellFormed(x.tail)
  }

  function Render(x: Syntax): string {
    x.lead + (x.startHour + ":" + x.startMinute + RenderTail(x.tail))
  }

  /** Recognises the end-of-event pattern and returns the pieces it matched. */
  function Scan(s: string): (r: Option<Syntax>)
    ensures r.Some? ==> WellFormed(r.value) && Render(r.value) == s
  {
    var a := SpanSpace(s);
    var c := ScanClock(s[a..]);
    if c.None? then None
    else
      var t := ScanTail(c.value.rest);
      if t.None? then None
      else
        RenderOf(s, a, c.value, t.value);
        Some(Syntax(s[..a], c.value.hour, c.value.minute, t.value))
  }

  lemma RenderOf(s: string, a: nat, c: Clock, t: Tail)
    requires a <= |s| && s[a..] == c.hour + ":" + c.minute + c.rest && c.rest == RenderTail(t)
    ensures Render(Syntax(s[..a], c.hour, c.minute, t)) == s
  {
    assert s == s[..a] + s[a..];
  }

  /** Every string the pattern describes is recognised, with exactly its own pieces. */
  lemma ScanComplete(x: Syntax)
    requires WellFormed(x)
    ensures Scan(Render(x)) == Some(x)
  {
    var rest := RenderTail(x.tail);
    var clock := x.startHour + ":" + x.startMinute + rest;
    var s := x.lead + clock;
    SpanSpaceOf(x.lead, clock);
    assert s[..|x.lead|] == x.lead && s[|x.lead|..] == clock;
    ScanClockOf(x.startHour, x.startMinute, rest);
    ScanTailComplete(x.tail);
  }

  /** So the pattern matches `s` exactly when the scanner accepts it. */
  lemma ScanAcceptsExactly(s: string)
    ensures Scan(s).Some? <==> exists x :: WellFormed(x) && Render(x) == s
  {
    if x :| WellFormed(x) && Render(x) == s { ScanComplete(x); }
  }

  const MinutesPerDay := 24 * 60

  /** The end of the range in minutes after midnight; a range that does not match ends at 24:00. */
  function EndMinutes(timeRange: string): int {
    match Scan(timeRange)
    case None => MinutesPerDay
    case Some(x) => DigitsValue(x.tail.endHour) * 60 + DigitsValue(x.tail.endMinute)
  }

  /** The end time is read from the second clock of a matching range. */
  lemma EndMinutesOf(x: Syntax)
    requires WellFormed(x)
    ensures EndMinutes(Render(x)) == DigitsValue(x.tail.endHour) * 60 + DigitsValue(x.tail.endMinute)
    ensures EndMinutes(Render(x)) <= 99 * 60 + 99
  {
    ScanComplete(x);
    ShortDigitsValue(x.tail.endHour);
    ShortDigitsValue(x.tail.endMinute);
  }

  /** `/^\d{1,2}:\d{2}\s*-\s*\d{1,2}:\d{2}$/`: no blanks around the range, only around the dash. */
  predicate IsStrict(s: string) {
    var r := Scan(s);
    r.Some? && r.value.lead == [] && r.value.tail.trail == []
  }

  lemma StrictNotEmpty(s: string)
    requires IsStrict(s)
    ensures s != []
  {
    var x := Scan(s).value;
    assert Render(x) == x.lead + (x.startHour + ":" + x.startMinute + RenderTail(x.tail));
  }

  lemma IsStrictExactly(x: Syntax)
    requires WellFormed(x)
    ensures IsStrict(Render(x)) <==> x.lead == [] && x.tail.trail == []
  {
    ScanComplete(x);
  }
}
