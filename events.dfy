/**
 * The events of the signup bot: an event object with its two rosters,
 * updated in place by `addPeople` and `removePeople`; the expiry rule;
 * the open events in display order; and the choice of the event a `+N` or
 * `-N` message applies to. The clock (today's date and the minutes since
 * midnight) is passed in.
 */
module Events {
  import opened Text
  import opened Roster
  import Commands
  import TimeRange

  /** An event as the bot stores it. */
  class Event {
    const id: string
    const date: string
    const timeRange: string
    const location: string
    const max: int
    var attendees: seq<Entry>
    var waitlist: seq<Entry>

    /** The event `/new` stores: the payload's fields and two empty lists. */
    constructor (id: string, payload: Commands.NewPayload)
      ensures this.id == id && date == payload.date && timeRange == payload.timeRange
      ensures location == payload.location && max == payload.max
      ensures attendees == [] && waitlist == []
      ensures Valid()
    {
      this.id := id;
      date := payload.date;
      timeRange := payload.timeRange;
      location := payload.location;
      max := payload.max;
      attendees := [];
      waitlist := [];
    }

    /** The two lists as a value. */
    function Rosters(): Lists
      reads this
    {
      Lists(attendees, waitlist)
    }

    /** Positive counts and one entry per user on each list. */
    predicate Valid()
      reads this
    {
      WellFormed(Rosters())
    }

    /** `addPeople(evt, userId, name, n)`: the party joins the main list or the waitlist. */
    method AddPeople(userId: string, name: string, n: int) returns (where: Placement)
      modifies this
      ensures Rosters() == Add(old(Rosters()), max, userId, name, n)
      ensures where == PlacementOf(old(Rosters()), max, userId, n)
      ensures old(Valid()) && n >= 1 ==> Valid() && Combined(Rosters()) == Combined(old(Rosters())) + n
    {
      ghost var before := Rosters();
      var cur := TotalCount(attendees);
      var idx := FindIndexById(attendees, userId);
      if idx != -1 {
        attendees := attendees[idx := attendees[idx].(count := attendees[idx].count + n)];
        where := Main;
      } else if cur + n <= max {
        attendees := attendees + [Entry(userId, name, n)];
        where := Main;
      } else {
        var w := FindIndexById(waitlist, userId);
        if w != -1 {
          waitlist := waitlist[w := waitlist[w].(count := waitlist[w].count + n)];
        } else {
          waitlist := waitlist + [Entry(userId, name, n)];
        }
        where := Wait;
      }
      assert Rosters() == Add(before, max, userId, name, n);
      if old(Valid()) && n >= 1 {
        assert Valid() && Combined(Rosters()) == Combined(before) + n by {
          AddConserves(before, max, userId, name, n);
        }
      }
    }

    /** `removePeople(evt, userId, nAbs)`: deduct the seats, then promote from the waitlist. */
    method RemovePeople(userId: string, nAbs: int)
      modifies this
      ensures Rosters() == Remove(old(Rosters()), max, userId, nAbs)
      ensures old(Valid()) ==> Valid() && (TotalCount(attendees) >= max || waitlist == [])
    {
      ghost var before := Rosters();
      DeductSeats(userId, nAbs);
      ghost var promoted := Promote(Rosters(), max, TotalCount(attendees));
      assert promoted == Remove(before, max, userId, nAbs);
      var cur := TotalCount(attendees);
      while cur < max && |waitlist| > 0
        invariant Promote(Rosters(), max, cur) == promoted
        decreases |waitlist|, max - cur
      {
        PromoteUnfold(Rosters(), max, cur);
        var canTake := PromoteHead(cur);
        cur := cur + canTake;
      }
      assert Rosters() == promoted;
      if old(Valid()) {
        assert Valid() && (TotalCount(attendees) >= max || waitlist == []) by {
          RemoveFacts(before, max, userId, nAbs);
        }
      }
    }

    /** The first half of `removePeople`: `|nAbs|` seats come off the user's main entry, the rest off their waitlist entry. */
    method DeductSeats(userId: string, nAbs: int)
      modifies this
      ensures Rosters() == Deduct(old(Rosters()), userId, nAbs)
    {
      ghost var before := Rosters();
      var toRemove := Abs(nAbs);
      var idx := FindIndexById(attendees, userId);
      if idx != -1 {
        var m := attendees[idx];
        if m.count > toRemove {
          attendees := attendees[idx := m.(count := m.count - toRemove)];
          toRemove := 0;
        } else {
          toRemove := toRemove - m.count;
          attendees := attendees[..idx] + attendees[idx + 1..];
        }
      }
      assert Taken(attendees, toRemove) == TakeFrom(before.attendees, userId, Abs(nAbs));
      if toRemove > 0 {
        ghost var left := toRemove;
        var w := FindIndexById(waitlist, userId);
        if w != -1 {
          var m := waitlist[w];
          if m.count > toRemove {
            waitlist := waitlist[w := m.(count := m.count - toRemove)];
            toRemove := 0;
          } else {
            toRemove := toRemove - m.count;
            waitlist := waitlist[..w] + waitlist[w + 1..];
          }
        }
        assert waitlist == TakeFrom(before.waitlist, userId, left).list;
      }
    }

    /**
     * One round of the promotion loop: `canTake` seats of the head party
     * join its user's main entry, or a new entry at the tail, and the head
     * is shifted off once its count reaches 0 or less.
     */
    method PromoteHead(cur: int) returns (canTake: int)
      requires cur < max && waitlist != []
      modifies this
      ensures canTake == CanTake(old(Rosters()), max, cur)
      ensures Rosters() == PromoteStep(old(Rosters()), max, cur)
    {
      ghost var r0 := Rosters();
      var first := waitlist[0];
      canTake := if first.count < max - cur then first.count else max - cur;
      var i := FindIndexById(attendees, first.userId);
      if i == -1 {
        attendees := attendees + [Entry(first.userId, first.name, canTake)];
      } else {
        attendees := attendees[i := attendees[i].(count := attendees[i].count + canTake)];
        assert attendees == Bump(r0.attendees, i, canTake);
      }
      assert attendees == JoinMain(r0.attendees, r0.waitlist[0], canTake);
      first := first.(count := first.count - canTake);
      if first.count <= 0 {
        waitlist := waitlist[1..];
      } else {
        waitlist := waitlist[0 := first];
      }
    }
  }

  // ---------------------------------------------------------------------------
  // Expiry
  // ---------------------------------------------------------------------------

  /**
   * `eventExpired(e)` on the day `today` at `nowMinutes` past midnight: a
   * later date is open, an earlier one is over, and on the day itself the
   * event is over once the end of its time range is reached.
   */
  function Expired(date: string, timeRange: string, today: string, nowMinutes: int): bool {
    if StrLess(today, date) then false
    else if StrLess(date, today) then true
    else nowMinutes >= TimeRange.EndMinutes(timeRange)
  }

  /** An event on an earlier date is expired; one on a later date is not. */
  lemma ExpiredByDate(date: string, timeRange: string, today: string, nowMinutes: int)
    ensures StrLess(date, today) ==> Expired(date, timeRange, today, nowMinutes)
    ensures StrLess(today, date) ==> !Expired(date, timeRange, today, nowMinutes)
  {
    StrLessAsymmetric(date, today);
  }

  /** On the event's own day it is expired exactly when the clock has reached the end of its range. */
  lemma ExpiredSameDay(date: string, timeRange: string, nowMinutes: int)
    ensures Expired(date, timeRange, date, nowMinutes) <==> nowMinutes >= TimeRange.EndMinutes(timeRange)
  {
    StrLessIrreflexive(date);
  }

  /** A time range that does not parse ends at 24:00, so such an event lasts the whole of its day. */
  lemma ExpiredUnparsable(date: string, timeRange: string, nowMinutes: int)
    requires TimeRange.Scan(timeRange).None? && 0 <= nowMinutes < TimeRange.MinutesPerDay
    ensures !Expired(date, timeRange, date, nowMinutes)
  {
    StrLessIrreflexive(date);
  }

  /** A range that parses ends at the minute its second clock names. */
  lemma ExpiredAtEnd(date: string, x: TimeRange.Syntax, nowMinutes: int)
    requires TimeRange.WellFormed(x)
    ensures Expired(date, TimeRange.Render(x), date, nowMinutes)
        <==> nowMinutes >= DigitsValue(x.tail.endHour) * 60 + DigitsValue(x.tail.endMinute)
  {
    StrLessIrreflexive(date);
    TimeRange.EndMinutesOf(x);
  }

  // ---------------------------------------------------------------------------
  // Open events
  // ---------------------------------------------------------------------------

  predicate IsOpen(e: Event, today: string, nowMinutes: int) {
    !Expired(e.date, e.timeRange, today, nowMinutes)
  }

  /** The sort key of `getOpenEvents`: date, then time range. */
  function Key(e: Event): string { e.date + e.timeRange }

  /** The events that have not expired, in their stored order. */
  function Unexpired(events: seq<Event>, today: string, nowMinutes: int): (r: seq<Event>)
    ensures forall k :: 0 <= k < |r| ==> r[k] in events && IsOpen(r[k], today, nowMinutes)
    ensures forall k :: 0 <= k < |events| && IsOpen(events[k], today, nowMinutes) ==> events[k] in r
    ensures multiset(r) <= multiset(events)
  {
    if events == [] then []
    else
      var rest := Unexpired(events[..|events| - 1], today, nowMinutes);
      var last := events[|events| - 1];
      assert events == events[..|events| - 1] + [last];
      if IsOpen(last, today, nowMinutes) then rest + [last] else rest
  }

  predicate SortedByKey(s: seq<Event>) {
    forall i, j :: 0 <= i < j < |s| ==> !StrLess(Key(s[j]), Key(s[i]))
  }

  /** Inserts an event after every event whose key is not greater than its own. */
  function InsertByKey(e: Event, s: seq<Event>): (r: seq<Event>)
    requires SortedByKey(s)
    ensures SortedByKey(r) && multiset(r) == multiset(s) + multiset{e}
  {
    if s == [] then [e]
    else if StrLess(Key(e), Key(s[0])) then
      InsertFirst(e, s);
      [e] + s
    else
      var r := [s[0]] + InsertByKey(e, s[1..]);
      InsertAfter(e, s, InsertByKey(e, s[1..]));
      assert s == [s[0]] + s[1..];
      r
  }

  lemma InsertFirst(e: Event, s: seq<Event>)
    requires SortedByKey(s) && s != [] && StrLess(Key(e), Key(s[0]))
    ensures SortedByKey([e] + s)
  {
    var r := [e] + s;
    forall i, j | 0 <= i < j < |r| ensures !StrLess(Key(r[j]), Key(r[i])) {
      if i == 0 {
        if StrLess(Key(r[j]), Key(e)) {
          if j == 1 {
            StrLessAsymmetric(Key(e), Key(s[0]));
          } else {
            StrLessTransitive(Key(r[j]), Key(e), Key(s[0]));
          }
        }
      }
    }
  }

  lemma InsertAfter(e: Event, s: seq<Event>, t: seq<Event>)
    requires SortedByKey(s) && s != [] && !StrLess(Key(e), Key(s[0]))
    requires SortedByKey(t) && multiset(t) == multiset(s[1..]) + multiset{e}
    ensures SortedByKey([s[0]] + t)
  {
    var r := [s[0]] + t;
    forall i, j | 0 <= i < j < |r| ensures !StrLess(Key(r[j]), Key(r[i])) {
      if i == 0 {
        var x := r[j];
        assert x in multiset(t);
        if x == e {
        } else {
          assert x in multiset(s[1..]);
          var k :| 0 <= k < |s[1..]| && s[1..][k] == x;
          assert s[k + 1] == x;
        }
      }
    }
  }

  /** Stable insertion sort by key. */
  function SortByKey(s: seq<Event>): (r: seq<Event>)
    ensures SortedByKey(r) && multiset(r) == multiset(s)
  {
    if s == [] then []
    else
      assert s == s[..|s| - 1] + [s[|s| - 1]];
      InsertByKey(s[|s| - 1], SortByKey(s[..|s| - 1]))
  }

  /**
   * `getOpenEvents(db)`: the events that have not expired, ordered by date
   * and time range.
   */
  function OpenEvents(events: seq<Event>, today: string, nowMinutes: int): (r: seq<Event>)
    ensures SortedByKey(r)
    ensures multiset(r) == multiset(Unexpired(events, today, nowMinutes))
    ensures forall k :: 0 <= k < |r| ==> r[k] in events && IsOpen(r[k], today, nowMinutes)
    ensures forall k :: 0 <= k < |events| && IsOpen(events[k], today, nowMinutes) ==> events[k] in r
    ensures forall key :: WithKey(r, key) == Unexpired(WithKey(events, key), today, nowMinutes)
  {
    var u := Unexpired(events, today, nowMinutes);
    var r := SortByKey(u);
    SameElements(r, u);
    forall key ensures WithKey(r, key) == Unexpired(WithKey(events, key), today, nowMinutes) {
      SortKeepsOrder(u, key);
      UnexpiredWithKey(events, key, today, nowMinutes);
    }
    r
  }

  /** The events of `s` whose key is `key`, in the order of `s`. */
  function WithKey(s: seq<Event>, key: string): seq<Event> {
    if s == [] then []
    else WithKey(s[..|s| - 1], key) + (if Key(s[|s| - 1]) == key then [s[|s| - 1]] else [])
  }

  lemma {:induction false} WithKeyConcat(a: seq<Event>, b: seq<Event>, key: string)
    ensures WithKey(a + b, key) == WithKey(a, key) + WithKey(b, key)
    decreases |b|
  {
    if b == [] {
      assert a + b == a;
    } else {
      var c := b[..|b| - 1];
      assert (a + b)[..|a + b| - 1] == a + c;
      WithKeyConcat(a, c, key);
    }
  }

  lemma {:induction false} WithKeyNone(s: seq<Event>, key: string)
    requires forall j :: 0 <= j < |s| ==> Key(s[j]) != key
    ensures WithKey(s, key) == []
    decreases |s|
  {
    if s != [] {
      WithKeyNone(s[..|s| - 1], key);
    }
  }

  /** Inserting `e` puts it after every event of the same key already there. */
  lemma {:induction false} InsertKeepsOrder(e: Event, s: seq<Event>, key: string)
    requires SortedByKey(s)
    ensures WithKey(InsertByKey(e, s), key) == WithKey(s, key) + WithKey([e], key)
    decreases |s|
  {
    if s == [] {
      assert [e][..0] == [];
    } else if StrLess(Key(e), Key(s[0])) {
      assert InsertByKey(e, s) == [e] + s;
      InsertBeforeKeepsOrder(e, s, key);
    } else {
      var t := InsertByKey(e, s[1..]);
      assert InsertByKey(e, s) == [s[0]] + t;
      InsertKeepsOrder(e, s[1..], key);
      ConsKeepsOrder(s, t, [e], key);
    }
  }

  /** Putting the head of `s` back in front of an insertion into its tail. */
  lemma ConsKeepsOrder(s: seq<Event>, t: seq<Event>, x: seq<Event>, key: string)
    requires s != [] && WithKey(t, key) == WithKey(s[1..], key) + WithKey(x, key)
    ensures WithKey([s[0]] + t, key) == WithKey(s, key) + WithKey(x, key)
  {
    WithKeyConcat([s[0]], t, key);
    WithKeyConcat([s[0]], s[1..], key);
    assert [s[0]] + s[1..] == s;
  }

  /** An event placed before a sorted run of greater keys comes after none of its own key. */
  lemma InsertBeforeKeepsOrder(e: Event, s: seq<Event>, key: string)
    requires SortedByKey(s) && s != [] && StrLess(Key(e), Key(s[0]))
    ensures WithKey([e] + s, key) == WithKey(s, key) + WithKey([e], key)
  {
    assert [e][..0] == [];
    WithKeyConcat([e], s, key);
    if Key(e) == key {
      forall j | 0 <= j < |s| ensures Key(s[j]) != key {
        if j == 0 {
          StrLessIrreflexive(key);
        }
      }
      WithKeyNone(s, key);
    }
  }

  /** `SortByKey` is stable: events of equal key keep their relative order. */
  lemma {:induction false} SortKeepsOrder(s: seq<Event>, key: string)
    ensures WithKey(SortByKey(s), key) == WithKey(s, key)
    decreases |s|
  {
    if s != [] {
      var p, last := s[..|s| - 1], s[|s| - 1];
      var q := SortByKey(p);
      assert SortByKey(s) == InsertByKey(last, q);
      assert p + [last] == s;
      SortKeepsOrder(p, key);
      SortStep(p, q, last, key);
    }
  }

  /** One step of the sort: the last event goes in after those of its key. */
  lemma SortStep(p: seq<Event>, q: seq<Event>, last: Event, key: string)
    requires SortedByKey(q) && WithKey(q, key) == WithKey(p, key)
    ensures WithKey(InsertByKey(last, q), key) == WithKey(p + [last], key)
  {
    InsertKeepsOrder(last, q, key);
    WithKeyConcat(p, [last], key);
  }

  /** Dropping expired events keeps the order of the rest. */
  lemma {:induction false} UnexpiredConcat(a: seq<Event>, b: seq<Event>, today: string, nowMinutes: int)
    ensures Unexpired(a + b, today, nowMinutes) == Unexpired(a, today, nowMinutes) + Unexpired(b, today, nowMinutes)
    decreases |b|
  {
    if b == [] {
      assert a + b == a;
    } else {
      var c := b[..|b| - 1];
      assert (a + b)[..|a + b| - 1] == a + c;
      UnexpiredConcat(a, c, today, nowMinutes);
    }
  }

  /** Filtering by key and dropping expired events commute. */
  lemma {:induction false} UnexpiredWithKey(events: seq<Event>, key: string, today: string, nowMinutes: int)
    ensures WithKey(Unexpired(events, today, nowMinutes), key) == Unexpired(WithKey(events, key), today, nowMinutes)
    decreases |events|
  {
    if events != [] {
      var p := events[..|events| - 1];
      var last := events[|events| - 1];
      UnexpiredWithKey(p, key, today, nowMinutes);
      var u := Unexpired(p, today, nowMinutes);
      var tail := if IsOpen(last, today, nowMinutes) then [last] else [];
      assert Unexpired(events, today, nowMinutes) == u + tail;
      WithKeyConcat(u, tail, key);
      var w := if Key(last) == key then [last] else [];
      assert WithKey(events, key) == WithKey(p, key) + w;
      UnexpiredConcat(WithKey(p, key), w, today, nowMinutes);
      assert [last][..0] == [];
    }
  }

  lemma SameElements(a: seq<Event>, b: seq<Event>)
    requires multiset(a) == multiset(b)
    ensures forall k :: 0 <= k < |a| ==> a[k] in b
    ensures forall k :: 0 <= k < |b| ==> b[k] in a
  {
    forall k | 0 <= k < |a| ensures a[k] in b { assert a[k] in multiset(a); }
    forall k | 0 <= k < |b| ensures b[k] in a { assert b[k] in multiset(b); }
  }

  // ---------------------------------------------------------------------------
  // The event a `+N` / `-N` message applies to
  // ---------------------------------------------------------------------------

  /** What the handler does with the open events and the date of a `+N` / `-N` message. */
  datatype Selection =
    | NoOpenEvent       // no event is open
    | DateNotFound      // a date was given and no open event is on it
    | AskForDate        // no date was given and several events are open
    | Chosen(event: Event)

  /** `openEvts.find(e => e.date === dateStr)`: the index of the first event on the date, or -1. */
  function FindByDate(events: seq<Event>, date: string): (i: int)
    ensures -1 <= i < |events|
    ensures i == -1 <==> forall k :: 0 <= k < |events| ==> events[k].date != date
    ensures 0 <= i ==> events[i].date == date && forall k :: 0 <= k < i ==> events[k].date != date
  {
    if events == [] then -1
    else if events[0].date == date then 0
    else
      var j := FindByDate(events[1..], date);
      if j == -1 then -1 else j + 1
  }

  /** The choice of target event in the `+N` / `-N` handler; an empty date means none was given. */
  function SelectTarget(openEvents: seq<Event>, dateStr: string): (s: Selection)
    ensures s == NoOpenEvent <==> openEvents == []
    ensures s == DateNotFound <==>
      openEvents != [] && dateStr != [] && forall k :: 0 <= k < |openEvents| ==> openEvents[k].date != dateStr
    ensures s == AskForDate <==> |openEvents| >= 2 && dateStr == []
    ensures s.Chosen? ==> s.event in openEvents
    ensures s.Chosen? && dateStr != [] ==> s.event.date == dateStr
    ensures s.Chosen? && dateStr != [] ==>
      FindByDate(openEvents, dateStr) >= 0 && s.event == openEvents[FindByDate(openEvents, dateStr)]
    ensures s.Chosen? && dateStr == [] ==> openEvents == [s.event]
  {
    if openEvents == [] then NoOpenEvent
    else if dateStr != [] then
      var i := FindByDate(openEvents, dateStr);
      if i == -1 then DateNotFound else Chosen(openEvents[i])
    else if |openEvents| == 1 then Chosen(openEvents[0])
    else AskForDate
  }

  /** The target of a message is an event that exists and is open at the time the list was taken. */
  lemma SelectedIsOpen(events: seq<Event>, today: string, nowMinutes: int, dateStr: string)
    ensures var s := SelectTarget(OpenEvents(events, today, nowMinutes), dateStr);
      s.Chosen? ==> s.event in events && IsOpen(s.event, today, nowMinutes)
  {
  }
}
