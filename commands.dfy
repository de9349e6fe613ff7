/**
 * The two chat commands that carry data: `+N` / `-N` with an optional
 * `@date`, and `/new <date> <h:mm-h:mm> <location...> [max=NN]`.
 * The patterns are recognised character by character; the current year,
 * which a short date `m/d` is completed with, is a parameter.
 */
module Commands {
  import opened Wrappers
  import opened Text
  import opened Dates
  import TimeRange

  // ---------------------------------------------------------------------
  // +N / -N [@date]
  // ---------------------------------------------------------------------

  /** The optional `\s*@\s*([0-9\/\-]+)` part of a `+N` command. */
  datatype AtDate = AtDate(before: string, after: string, date: string)

  /** The pieces `/^([+\-])\s*(\d+)(?:\s*@\s*([0-9\/\-]+))?$/` matches, in order. */
  datatype PlusMinusSyntax = PlusMinusSyntax(sign: char, gap: string, digits: string, at: Option<AtDate>)

  predicate IsDateChar(c: char) { IsDigit(c) || c == '/' || c == '-' }
  predicate AllDateChars(s: string) { forall i :: 0 <= i < |s| ==> IsDateChar(s[i]) }

  predicate AtWellFormed(a: AtDate) {
    AllSpace(a.before) && AllSpace(a.after) && |a.date| >= 1 && AllDateChars(a.date)
  }

  predicate PlusMinusWellFormed(x: PlusMinusSyntax) {
    (x.sign == '+' || x.sign == '-') && AllSpace(x.gap) && |x.digits| >= 1 && AllDigits(x.digits)
    && (x.at.Some? ==> AtWellFormed(x.at.value))
  }

  function RenderAt(at: Option<AtDate>): string {
    match at
    case None => ""
    case Some(a) => a.before + ("@" + (a.after + a.date))
  }

  function RenderPlusMinus(x: PlusMinusSyntax): string {
    [x.sign] + (x.gap + (x.digits + RenderAt(x.at)))
  }

  /** What may follow the digits: nothing, or blanks, `@`, blanks and a date token. */
  function ScanAt(s: string): (r: Option<Option<AtDate>>)
    ensures r.Some? ==> (r.value.Some? ==> AtWellFormed(r.value.value)) && RenderAt(r.value) == s
  {
    if s == [] then Some(None)
    else
      var b := SpanSpace(s);
      if b < |s| && s[b] == '@' then
        var r := s[b + 1..];
        var c := SpanSpace(r);
        if c < |r| && AllDateChars(r[c..]) then
          RenderAtOf(s, b, c);
          Some(Some(AtDate(s[..b], r[..c], r[c..])))
        else None
      else None
  }

  lemma RenderAtOf(s: string, b: nat, c: nat)
    requires b < |s| && s[b] == '@' && c <= |s[b + 1..]|
    ensures RenderAt(Some(AtDate(s[..b], s[b + 1..][..c], s[b + 1..][c..]))) == s
  {
    var r := s[b + 1..];
    assert r == r[..c] + r[c..];
    assert s == s[..b] + ("@" + r);
  }

  lemma ScanAtComplete(at: Option<AtDate>)
    requires at.Some? ==> AtWellFormed(at.value)
    ensures ScanAt(RenderAt(at)) == Some(at)
  {
    if at.Some? {
      var a := at.value;
      var r := a.after + a.date;
      var s := a.before + ("@" + r);
      assert !IsSpace(a.date[0]);
      SpanSpaceOf(a.before, "@" + r);
      assert s[..|a.before|] == a.before && s[|a.before|] == '@' && s[|a.before| + 1..] == r;
      SpanSpaceOf(a.after, a.date);
      assert r[..|a.after|] == a.after && r[|a.after|..] == a.date;
    }
  }

  /** Recognises a (trimmed) `+N` / `-N` command and returns the pieces it matched. */
  function ScanPlusMinus(s: string): (r: Option<PlusMinusSyntax>)
    ensures r.Some? ==> PlusMinusWellFormed(r.value) && RenderPlusMinus(r.value) == s
  {
    if s != [] && (s[0] == '+' || s[0] == '-') then
      var rest := s[1..];
      var g := SpanSpace(rest);
      var r2 := rest[g..];
      var n := SpanDigits(r2);
      var at := ScanAt(r2[n..]);
      if n >= 1 && at.Some? then
        RenderPlusMinusOf(s, g, n, at.value);
        Some(PlusMinusSyntax(s[0], rest[..g], r2[..n], at.value))
      else None
    else None
  }

  lemma RenderPlusMinusOf(s: string, g: nat, n: nat, at: Option<AtDate>)
    requires s != [] && g <= |s[1..]| && n <= |s[1..][g..]| && RenderAt(at) == s[1..][g..][n..]
    ensures RenderPlusMinus(PlusMinusSyntax(s[0], s[1..][..g], s[1..][g..][..n], at)) == s
  {
    var rest := s[1..];
    var r2 := rest[g..];
    assert r2 == r2[..n] + r2[n..];
    assert rest == rest[..g] + r2;
    assert s == [s[0]] + rest;
  }

  lemma ScanPlusMinusComplete(x: PlusMinusSyntax)
    requires PlusMinusWellFormed(x)
    ensures ScanPlusMinus(RenderPlusMinus(x)) == Some(x)
  {
    var tail := RenderAt(x.at);
    var r2 := x.digits + tail;
    var rest := x.gap + r2;
    var s := [x.sign] + rest;
    assert s[0] == x.sign && s[1..] == rest;
    assert !IsSpace(x.digits[0]);
    SpanSpaceOf(x.gap, r2);
    assert rest[..|x.gap|] == x.gap && rest[|x.gap|..] == r2;
    assert tail == [] || !IsDigit(tail[0]) by {
      if x.at.Some? {
        var a := x.at.value;
        assert tail == a.before + ("@" + (a.after + a.date));
        if a.before != [] { assert tail[0] == a.before[0]; } else { assert tail[0] == '@'; }
      }
    }
    SpanDigitsOf(x.digits, tail);
    assert r2[..|x.digits|] == x.digits && r2[|x.digits|..] == tail;
    ScanAtComplete(x.at);
  }

  /** The text ends in a digit or a date character, so trimming leaves it alone. */
  lemma PlusMinusEnds(x: PlusMinusSyntax)
    requires PlusMinusWellFormed(x)
    ensures var s := RenderPlusMinus(x); s != [] && !IsSpace(s[0]) && !IsSpace(s[|s| - 1])
  {
    var s := RenderPlusMinus(x);
    var tail := RenderAt(x.at);
    if x.at.Some? {
      var a := x.at.value;
      assert s[|s| - 1] == a.date[|a.date| - 1];
    } else {
      assert s[|s| - 1] == x.digits[|x.digits| - 1];
    }
  }

  /** The pattern matches `s` exactly when the scanner accepts it. */
  ghost predicate IsPlusMinusText(s: string) {
    exists x :: PlusMinusWellFormed(x) && RenderPlusMinus(x) == s
  }

  lemma ScanPlusMinusExactly(s: string)
    ensures ScanPlusMinus(s).Some? <==> IsPlusMinusText(s)
  {
    if x :| PlusMinusWellFormed(x) && RenderPlusMinus(x) == s { ScanPlusMinusComplete(x); }
  }

  /** The result of `parsePlusMinus`: the sign, the clamped count and the target date (or ""). */
  datatype PlusMinus = PlusMinus(sign: int, n: int, dateStr: string)

  const MinCount := 1
  const MaxCount := 10

  /** `Math.min(Math.max(n, 1), 10)` */
  function Clamp(n: int): (r: int)
    ensures MinCount <= r <= MaxCount
    ensures MinCount <= n <= MaxCount ==> r == n
    ensures n < MinCount ==> r == MinCount
    ensures n > MaxCount ==> r == MaxCount
  {
    if n < MinCount then MinCount else if n > MaxCount then MaxCount else n
  }

  /** The date after `@`: kept if `yyyy-mm-dd`, completed with the year if `m/d`, otherwise dropped. */
  function DateArgument(at: Option<AtDate>, year: nat): (r: string)
    requires at.Some? ==> AtWellFormed(at.value)
    ensures at.Some? && IsYMD(at.value.date) ==> r == at.value.date
    ensures at.Some? && !IsYMD(at.value.date) && IsMD(at.value.date) ==> r == ToYMDFromMD(at.value.date, year)
    ensures at.None? || (!IsYMD(at.value.date) && !IsMD(at.value.date)) ==> r == []
    ensures 1000 <= year <= 9999 ==> r == [] || IsYMD(r)
  {
    match at
    case None => ""
    case Some(a) =>
      if IsYMD(a.date) then a.date
      else if IsMD(a.date) then ToYMDFromMD(a.date, year)
      else ""
  }

  /** `parsePlusMinus(text)`: `None` stands for the source's `null`. */
  function ParsePlusMinus(text: string, year: nat): (r: Option<PlusMinus>)
    ensures r.Some? ==> (r.value.sign == 1 || r.value.sign == -1) && MinCount <= r.value.n <= MaxCount
    ensures r.Some? && 1000 <= year <= 9999 ==> r.value.dateStr == [] || IsYMD(r.value.dateStr)
  {
    match ScanPlusMinus(Trim(text))
    case None => None
    case Some(x) =>
      Some(PlusMinus(if x.sign == '+' then 1 else -1, Clamp(DigitsValue(x.digits)), DateArgument(x.at, year)))
  }

  /** A command is understood exactly when its trimmed text has the `+N [@date]` shape. */
  lemma ParsePlusMinusAccepts(text: string, year: nat)
    ensures ParsePlusMinus(text, year).Some? <==> IsPlusMinusText(Trim(text))
  {
    ScanPlusMinusExactly(Trim(text));
  }

  /** Every well-formed command, with any blanks around it, reads back as its sign, count and date. */
  lemma ParsePlusMinusOf(x: PlusMinusSyntax, lead: string, trail: string, year: nat)
    requires PlusMinusWellFormed(x) && AllSpace(lead) && AllSpace(trail)
    ensures ParsePlusMinus(lead + RenderPlusMinus(x) + trail, year)
         == Some(PlusMinus(if x.sign == '+' then 1 else -1, Clamp(DigitsValue(x.digits)), DateArgument(x.at, year)))
  {
    PlusMinusEnds(x);
    TrimAround(lead, RenderPlusMinus(x), trail);
    ScanPlusMinusComplete(x);
  }

  // ---------------------------------------------------------------------
  // /new <date> <time range> <location...> [max=NN]
  // ---------------------------------------------------------------------

  /** The event fields a `/new` command supplies. */
  datatype NewPayload = NewPayload(date: string, timeRange: string, location: string, max: int)

  /** The main-list capacity of an event created without `max=`. */
  const DefaultMax := 8

  predicate IsLetter(c: char, lower: char) { c == lower || c as int == lower as int - 32 }

  /** The command name `/new`, in any letter case, opens `s`. */
  predicate HasNewPrefix(s: string) {
    |s| >= 4 && s[0] == '/' && IsLetter(s[1], 'n') && IsLetter(s[2], 'e') && IsLetter(s[3], 'w')
  }

  /** `s.replace(/^\/new\s*\/i, '')`: the command name and the blanks after it go, and nothing else. */
  function StripNewCommand(s: string): (r: string)
    ensures HasNewPrefix(s) ==>
      exists k :: 4 <= k <= |s| && AllSpace(s[4..k]) && r == s[k..] && (r == [] || !IsSpace(r[0]))
    ensures !HasNewPrefix(s) ==> r == s
  {
    if HasNewPrefix(s) then
      var t := s[4..];
      var n := SpanSpace(t);
      assert t[..n] == s[4..4 + n] && t[n..] == s[4 + n..];
      t[n..]
    else s
  }

  /** `/^max=(\d{1,2})$/i` */
  predicate IsMaxOption(w: string) {
    5 <= |w| <= 6 && IsLetter(w[0], 'm') && IsLetter(w[1], 'a') && IsLetter(w[2], 'x') && w[3] == '='
    && AllDigits(w[4..])
  }

  /** The capacity a `max=NN` word (in any letter case) sets: `Math.max(1, NN)`. */
  function MaxOption(w: string): (r: int)
    requires IsMaxOption(w)
    ensures 1 <= r <= 99
    ensures DigitsValue(w[4..]) >= 1 ==> r == DigitsValue(w[4..])
    ensures DigitsValue(w[4..]) == 0 ==> r == 1
  {
    ShortDigitsValue(w[4..]);
    var v := DigitsValue(w[4..]);
    if v < 1 then 1 else v
  }

  /** `parseNewPayload(s)`: `None` stands for the source's `null`. */
  function ParseNewPayload(s: string, year: nat): (r: Option<NewPayload>)
    ensures var ws := Words(Trim(StripNewCommand(s)));
      r.Some? <==> |ws| >= 3 && (IsYMD(ws[0]) || IsMD(ws[0])) && TimeRange.IsStrict(ws[1])
    ensures r.Some? ==> 1 <= r.value.max <= 99
    ensures r.Some? ==> TimeRange.IsStrict(r.value.timeRange) && NoSpace(r.value.timeRange)
    ensures r.Some? && 1000 <= year <= 9999 ==> IsYMD(r.value.date)
  {
    PayloadOfWords(Words(Trim(StripNewCommand(s))), year)
  }

  /** The payload read from the words of a `/new` command once the command name is gone. */
  function PayloadOfWords(parts: seq<string>, year: nat): (r: Option<NewPayload>)
    requires IsWordList(parts)
    ensures r.Some? <==> |parts| >= 3 && (IsYMD(parts[0]) || IsMD(parts[0])) && TimeRange.IsStrict(parts[1])
    ensures r.Some? ==> r.value.date == DateOfWord(parts[0], year) && r.value.timeRange == parts[1]
    ensures r.Some? ==> 1 <= r.value.max <= 99
    ensures r.Some? ==> TimeRange.IsStrict(r.value.timeRange) && NoSpace(r.value.timeRange)
    ensures r.Some? && 1000 <= year <= 9999 ==> IsYMD(r.value.date)
  {
    if |parts| < 3 then None else PayloadOfFields(parts[0], parts[1], parts[2..], year)
  }

  /** `[dateRaw, timeRange, ...rest]`: the capacity comes off the last word, the location is the rest joined. */
  function PayloadOfFields(dateRaw: string, timeRange: string, rest: seq<string>, year: nat): (r: Option<NewPayload>)
    requires rest != [] && NoSpace(timeRange)
    ensures r.Some? <==> (IsYMD(dateRaw) || IsMD(dateRaw)) && TimeRange.IsStrict(timeRange)
    ensures r.Some? ==> r.value.date == DateOfWord(dateRaw, year) && r.value.timeRange == timeRange
    ensures r.Some? ==> 1 <= r.value.max <= 99
    ensures r.Some? ==> TimeRange.IsStrict(r.value.timeRange) && NoSpace(r.value.timeRange)
    ensures r.Some? && 1000 <= year <= 9999 ==> IsYMD(r.value.date)
  {
    var last := rest[|rest| - 1];
    var max := if IsMaxOption(last) then MaxOption(last) else DefaultMax;
    var location := Join(if IsMaxOption(last) then rest[..|rest| - 1] else rest);
    if !IsYMD(dateRaw) && !IsMD(dateRaw) then None
    else if !TimeRange.IsStrict(timeRange) then None
    else
      var date := if IsYMD(dateRaw) then dateRaw else ToYMDFromMD(dateRaw, year);
      Some(NewPayload(date, timeRange, location, max))
  }

  /** The date a `/new` date word stands for. */
  function DateOfWord(w: string, year: nat): (d: string)
    requires IsYMD(w) || IsMD(w)
    ensures IsYMD(w) ==> d == w
    ensures !IsYMD(w) ==> d == ToYMDFromMD(w, year)
    ensures 1000 <= year <= 9999 ==> IsYMD(d)
  {
    if IsYMD(w) then w else ToYMDFromMD(w, year)
  }

  predicate IsDateWord(w: string) {
    (IsYMD(w) || IsMD(w)) && NoSpace(w)
  }

  lemma DateWordNotEmpty(w: string)
    requires IsDateWord(w)
    ensures w != []
  {
    if IsMD(w) { assert |w| >= 3; }
  }

  lemma WordListAppend(ws: seq<string>, w: string)
    requires IsWordList(ws) && w != [] && NoSpace(w)
    ensures IsWordList(ws + [w])
  {
    forall k | 0 <= k < |ws| + 1 ensures (ws + [w])[k] != [] && NoSpace((ws + [w])[k]) {
      if k < |ws| { assert (ws + [w])[k] == ws[k]; }
    }
  }

  /** The words of a `/new` command: the date, the time range and the rest. */
  lemma CommandWords(date: string, timeRange: string, rest: seq<string>)
    requires date != [] && NoSpace(date) && timeRange != [] && NoSpace(timeRange) && IsWordList(rest)
    ensures IsWordList([date, timeRange] + rest)
  {
    var ws := [date, timeRange] + rest;
    forall k | 0 <= k < |ws| ensures ws[k] != [] && NoSpace(ws[k]) {
      if k >= 2 { assert ws[k] == rest[k - 2]; }
    }
  }

  /** Stripping `/new ` off the words joined with spaces gives those words back. */
  lemma WordsOfNewCommand(ws: seq<string>)
    requires IsWordList(ws) && ws != []
    ensures Words(Trim(StripNewCommand("/new " + Join(ws)))) == ws
  {
    var j := Join(ws);
    JoinEnds(ws);
    StripNewOf(j);
    assert Trim(j) == j by {
      TrimAround("", j, "");
      assert "" + j + "" == j;
    }
    WordsJoin(ws);
  }

  /** `/new` and the blank after it come off a command whose argument text starts with a non-blank. */
  lemma StripNewOf(j: string)
    requires j != [] && !IsSpace(j[0])
    ensures StripNewCommand("/new " + j) == j
  {
    var s := "/new " + j;
    assert s[4..] == " " + j;
    assert IsSpace(' ');
    SpanSpaceOf(" ", j);
    assert (" " + j)[1..] == j;
  }

  /** The payload of a `/new` command with a date, a time range and more words is read from those fields. */
  lemma PayloadOfCommandWords(date: string, timeRange: string, rest: seq<string>, year: nat)
    requires IsWordList([date, timeRange] + rest) && rest != [] && NoSpace(timeRange)
    ensures PayloadOfWords([date, timeRange] + rest, year) == PayloadOfFields(date, timeRange, rest, year)
  {
    var ws := [date, timeRange] + rest;
    assert ws[0] == date && ws[1] == timeRange && ws[2..] == rest;
  }

  /** A `/new` command without `max=` gives its date, time range and location, and the default capacity. */
  lemma ParseNewPayloadOf(date: string, timeRange: string, place: seq<string>, year: nat)
    requires IsDateWord(date) && TimeRange.IsStrict(timeRange) && NoSpace(timeRange)
    requires IsWordList(place) && place != [] && !IsMaxOption(place[|place| - 1])
    ensures ParseNewPayload("/new " + Join([date, timeRange] + place), year)
         == Some(NewPayload(DateOfWord(date, year), timeRange, Join(place), DefaultMax))
  {
    var ws := [date, timeRange] + place;
    DateWordNotEmpty(date);
    TimeRange.StrictNotEmpty(timeRange);
    CommandWords(date, timeRange, place);
    WordsOfNewCommand(ws);
    PayloadOfCommandWords(date, timeRange, place, year);
  }

  /** A `/new` command ending in `max=NN` gives its date, time range, location and `max(1, NN)`. */
  lemma ParseNewPayloadWithMaxOf(date: string, timeRange: string, place: seq<string>, key: string, digits: string, year: nat)
    requires IsDateWord(date) && TimeRange.IsStrict(timeRange) && NoSpace(timeRange)
    requires IsWordList(place) && IsMaxKey(key) && 1 <= |digits| <= 2 && AllDigits(digits)
    ensures ParseNewPayload("/new " + Join([date, timeRange] + place + [key + "=" + digits]), year)
         == Some(NewPayload(DateOfWord(date, year), timeRange, Join(place), if DigitsValue(digits) < 1 then 1 else DigitsValue(digits)))
  {
    var opt := key + "=" + digits;
    var rest := place + [opt];
    var ws := [date, timeRange] + rest;
    assert [date, timeRange] + place + [opt] == ws;
    assert IsWordList(ws) by {
      MaxWord(key, digits);
      WordListAppend(place, opt);
      DateWordNotEmpty(date);
      TimeRange.StrictNotEmpty(timeRange);
      CommandWords(date, timeRange, rest);
    }
    assert Words(Trim(StripNewCommand("/new " + Join(ws)))) == ws by {
      WordsOfNewCommand(ws);
    }
    assert PayloadOfWords(ws, year)
        == Some(NewPayload(DateOfWord(date, year), timeRange, Join(place), MaxOption(opt))) by {
      MaxWord(key, digits);
      PayloadOfCommandWords(date, timeRange, rest, year);
      assert rest[..|rest| - 1] == place && rest[|rest| - 1] == opt;
    }
    MaxWord(key, digits);
  }

  /** The option name `max`, in any letter case. */
  predicate IsMaxKey(key: string) {
    |key| == 3 && IsLetter(key[0], 'm') && IsLetter(key[1], 'a') && IsLetter(key[2], 'x')
  }

  /** `max=NN`, in any letter case, is a single word that sets the capacity to `max(1, NN)`. */
  lemma MaxWord(key: string, digits: string)
    requires IsMaxKey(key) && 1 <= |digits| <= 2 && AllDigits(digits)
    ensures IsMaxOption(key + "=" + digits) && NoSpace(key + "=" + digits)
    ensures MaxOption(key + "=" + digits) == if DigitsValue(digits) < 1 then 1 else DigitsValue(digits)
  {
    var opt := key + "=" + digits;
    assert opt[..3] == key && opt[4..] == digits;
    forall i | 0 <= i < |opt| ensures !IsSpace(opt[i]) {
      if i >= 4 { assert opt[i] == digits[i - 4]; }
    }
  }
}
