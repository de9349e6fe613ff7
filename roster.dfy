/**
 * The seat rosters of one event: the main list (`attendees`, capped by the
 * event's `max`) and the `waitlist`, each an ordered list of parties
 * `{userId, name, count}`. This module defines, on values, what `addPeople`
 * and `removePeople` do to the two lists, and proves what they keep:
 * the seats each user holds, the other users' entries, the order of the
 * waitlist and the state the promotion loop leaves behind.
 */
module Roster {

  /** One party on a list: who signed up, under which name, and for how many seats. */
  datatype Entry = Entry(userId: string, name: string, count: int)

  /** The two lists of an event. */
  datatype Lists = Lists(attendees: seq<Entry>, waitlist: seq<Entry>)

  /** Where `addPeople` put a party: `main` (status `ok`) or `wait` (status `wait`). */
  datatype Placement = Main | Wait

  function Min(a: int, b: int): int { if a < b then a else b }

  function Abs(x: int): nat { if x < 0 then -x else x }

  /** The seats one entry takes: `m.count || 1`, so a zero count is taken as one seat. */
  function Weight(e: Entry): int { if e.count == 0 then 1 else e.count }

  /** `totalCount(list)`: the seats a list takes. */
  function TotalCount(list: seq<Entry>): (t: int)
  {
    if list == [] then 0 else TotalCount(list[..|list| - 1]) + Weight(list[|list| - 1])
  }

  /** `findIndexById(list, id)`: the first position of the user's entry, or -1. */
  function FindIndexById(list: seq<Entry>, id: string): (i: int)
    ensures -1 <= i < |list|
    ensures i == -1 <==> forall k :: 0 <= k < |list| ==> list[k].userId != id
    ensures 0 <= i ==> list[i].userId == id && forall k :: 0 <= k < i ==> list[k].userId != id
  {
    if list == [] then -1
    else if list[0].userId == id then 0
    else
      var j := FindIndexById(list[1..], id);
      if j == -1 then -1 else j + 1
  }

  /** The seats a user holds on one list. */
  function HeldBy(list: seq<Entry>, u: string): int {
    if list == [] then 0
    else HeldBy(list[..|list| - 1], u) + (if list[|list| - 1].userId == u then Weight(list[|list| - 1]) else 0)
  }

  /** The list with the user's entries taken out: what the other users have on it, in order. */
  function Without(list: seq<Entry>, u: string): seq<Entry> {
    if list == [] then []
    else Without(list[..|list| - 1], u) + (if list[|list| - 1].userId == u then [] else [list[|list| - 1]])
  }

  /** The seats on both lists together. */
  function Combined(r: Lists): int { TotalCount(r.attendees) + TotalCount(r.waitlist) }

  /** The seats a user holds on both lists together. */
  function Holding(r: Lists, u: string): int { HeldBy(r.attendees, u) + HeldBy(r.waitlist, u) }

  predicate Positive(list: seq<Entry>) { forall k :: 0 <= k < |list| ==> list[k].count >= 1 }

  predicate Distinct(list: seq<Entry>) {
    forall j, k :: 0 <= j < k < |list| ==> list[j].userId != list[k].userId
  }

  /**
   * Every count is at least one and a user has at most one entry per list.
   * The same user may still be on both lists.
   */
  predicate WellFormed(r: Lists) {
    Positive(r.attendees) && Distinct(r.attendees) && Positive(r.waitlist) && Distinct(r.waitlist)
  }

  /** `list[i].count += n` */
  function Bump(list: seq<Entry>, i: nat, n: int): (r: seq<Entry>)
    requires i < |list|
    ensures |r| == |list| && r[i].userId == list[i].userId && r[i].name == list[i].name
    ensures r[i].count == list[i].count + n
    ensures forall k :: 0 <= k < |list| && k != i ==> r[k] == list[k]
  {
    list[i := list[i].(count := list[i].count + n)]
  }

  /** `list.splice(i, 1)` */
  function Splice(list: seq<Entry>, i: nat): (r: seq<Entry>)
    requires i < |list|
    ensures |r| == |list| - 1
    ensures forall k :: 0 <= k < i ==> r[k] == list[k]
    ensures forall k :: i <= k < |r| ==> r[k] == list[k + 1]
  {
    list[..i] + list[i + 1..]
  }

  // ---------------------------------------------------------------------------
  // How the sums and the filter behave under the list updates the code makes
  // ---------------------------------------------------------------------------

  lemma {:induction false} Concat(a: seq<Entry>, b: seq<Entry>, u: string)
    ensures TotalCount(a + b) == TotalCount(a) + TotalCount(b)
    ensures HeldBy(a + b, u) == HeldBy(a, u) + HeldBy(b, u)
    ensures Without(a + b, u) == Without(a, u) + Without(b, u)
  {
    if b == [] {
      assert a + b == a;
    } else {
      var b' := b[..|b| - 1];
      Concat(a, b', u);
      assert (a + b)[..|a + b| - 1] == a + b';
      assert (a + b)[|a + b| - 1] == b[|b| - 1];
    }
  }

  lemma Single(e: Entry, u: string)
    ensures TotalCount([e]) == Weight(e)
    ensures HeldBy([e], u) == if e.userId == u then Weight(e) else 0
    ensures Without([e], u) == if e.userId == u then [] else [e]
  {
    assert [e][..0] == [];
  }

  /** A list without the user's entries holds nothing of theirs and loses nothing to the filter. */
  lemma {:induction false} Absent(list: seq<Entry>, u: string)
    requires forall k :: 0 <= k < |list| ==> list[k].userId != u
    ensures HeldBy(list, u) == 0 && Without(list, u) == list
  {
    if list != [] {
      Absent(list[..|list| - 1], u);
    }
  }

  /** Putting one entry between two parts of a list adds its seats to its user's. */
  lemma Middle(a: seq<Entry>, e: Entry, b: seq<Entry>, u: string)
    ensures TotalCount(a + [e] + b) == TotalCount(a + b) + Weight(e)
    ensures HeldBy(a + [e] + b, u) == HeldBy(a + b, u) + (if e.userId == u then Weight(e) else 0)
    ensures e.userId == u ==> Without(a + [e] + b, u) == Without(a + b, u)
  {
    Concat(a + [e], b, u);
    Concat(a, b, u);
    Append(a, e, u);
  }

  /** Replacing one entry by one of the same user changes only that user's seats. */
  lemma Replace(list: seq<Entry>, i: nat, e: Entry, u: string)
    requires i < |list| && e.userId == list[i].userId
    ensures TotalCount(list[i := e]) == TotalCount(list) - Weight(list[i]) + Weight(e)
    ensures HeldBy(list[i := e], u) == HeldBy(list, u) + (if e.userId == u then Weight(e) - Weight(list[i]) else 0)
    ensures e.userId == u ==> Without(list[i := e], u) == Without(list, u)
  {
    var pre, post := list[..i], list[i + 1..];
    assert list == pre + [list[i]] + post;
    assert list[i := e] == pre + [e] + post;
    Middle(pre, list[i], post, u);
    Middle(pre, e, post, u);
  }

  /** Splicing an entry out takes away only that entry's user's seats. */
  lemma SpliceSums(list: seq<Entry>, i: nat, u: string)
    requires i < |list|
    ensures TotalCount(Splice(list, i)) == TotalCount(list) - Weight(list[i])
    ensures HeldBy(Splice(list, i), u) == HeldBy(list, u) - (if list[i].userId == u then Weight(list[i]) else 0)
    ensures list[i].userId == u ==> Without(Splice(list, i), u) == Without(list, u)
  {
    var pre, post := list[..i], list[i + 1..];
    assert list == pre + [list[i]] + post;
    Middle(pre, list[i], post, u);
  }

  /** Appending an entry adds its seats to its user's. */
  lemma Append(list: seq<Entry>, e: Entry, u: string)
    ensures TotalCount(list + [e]) == TotalCount(list) + Weight(e)
    ensures HeldBy(list + [e], u) == HeldBy(list, u) + (if e.userId == u then Weight(e) else 0)
    ensures e.userId == u ==> Without(list + [e], u) == Without(list, u)
  {
    assert (list + [e])[..|list|] == list;
  }

  /** On a list with one entry per user, the user holds exactly what `findIndexById` finds. */
  lemma HeldByFound(list: seq<Entry>, u: string)
    requires Distinct(list)
    ensures var i := FindIndexById(list, u); HeldBy(list, u) == if i == -1 then 0 else Weight(list[i])
  {
    var i := FindIndexById(list, u);
    if i == -1 {
      Absent(list, u);
    } else {
      var pre, post := list[..i], list[i + 1..];
      assert HeldBy(pre, u) == 0 by {
        Absent(pre, u);
      }
      assert HeldBy(post, u) == 0 by {
        forall k | 0 <= k < |post| ensures post[k].userId != u {
          assert post[k] == list[i + 1 + k];
        }
        Absent(post, u);
      }
      assert HeldBy(list, u) == HeldBy(pre + post, u) + Weight(list[i]) by {
        assert list == pre + [list[i]] + post;
        Middle(pre, list[i], post, u);
      }
      Concat(pre, post, u);
    }
  }

  /** On a list of positive counts, no user holds more than the whole list, nor less than nothing. */
  lemma {:induction false} PositiveSums(list: seq<Entry>, u: string)
    requires Positive(list)
    ensures TotalCount(list) >= HeldBy(list, u) >= 0
  {
    if list != [] {
      PositiveSums(list[..|list| - 1], u);
    }
  }

  /** Changing one count keeps a list well formed as long as the count stays positive. */
  lemma BumpKeeps(list: seq<Entry>, i: nat, n: int)
    requires Positive(list) && Distinct(list) && i < |list| && list[i].count + n >= 1
    ensures Positive(Bump(list, i, n)) && Distinct(Bump(list, i, n))
  {
    var b := Bump(list, i, n);
    forall j, k | 0 <= j < k < |b| ensures b[j].userId != b[k].userId {
      assert b[j].userId == list[j].userId && b[k].userId == list[k].userId;
    }
  }

  /** Appending a positive entry for a user not yet on the list keeps it well formed. */
  lemma PushKeeps(list: seq<Entry>, e: Entry)
    requires Positive(list) && Distinct(list) && e.count >= 1
    requires forall k :: 0 <= k < |list| ==> list[k].userId != e.userId
    ensures Positive(list + [e]) && Distinct(list + [e])
  {
  }

  /** Splicing an entry out keeps a list well formed. */
  lemma SpliceKeeps(list: seq<Entry>, i: nat)
    requires Positive(list) && Distinct(list) && i < |list|
    ensures Positive(Splice(list, i)) && Distinct(Splice(list, i))
  {
    var s := Splice(list, i);
    forall j, k | 0 <= j < k < |s| ensures s[j].userId != s[k].userId {
      var j', k' := if j < i then j else j + 1, if k < i then k else k + 1;
      assert s[j] == list[j'] && s[k] == list[k'];
    }
  }

  // ---------------------------------------------------------------------------
  // addPeople
  // ---------------------------------------------------------------------------

  /** Whether `addPeople` answers `main`: the user is listed already, or the whole party fits. */
  function PlacementOf(r: Lists, max: int, u: string, n: int): Placement {
    if FindIndexById(r.attendees, u) != -1 || TotalCount(r.attendees) + n <= max then Main else Wait
  }

  /** The lists after `addPeople(evt, u, name, n)`. */
  function Add(r: Lists, max: int, u: string, name: string, n: int): Lists {
    var i := FindIndexById(r.attendees, u);
    if i != -1 then Lists(Bump(r.attendees, i, n), r.waitlist)
    else if TotalCount(r.attendees) + n <= max then Lists(r.attendees + [Entry(u, name, n)], r.waitlist)
    else
      var w := FindIndexById(r.waitlist, u);
      if w != -1 then Lists(r.attendees, Bump(r.waitlist, w, n))
      else Lists(r.attendees, r.waitlist + [Entry(u, name, n)])
  }

  /** A user already on the main list gets `n` more seats there, whatever the capacity. */
  lemma AddListed(r: Lists, max: int, u: string, name: string, n: int)
    requires FindIndexById(r.attendees, u) != -1
    ensures var i, a := FindIndexById(r.attendees, u), Add(r, max, u, name, n);
      PlacementOf(r, max, u, n) == Main && a.waitlist == r.waitlist
      && |a.attendees| == |r.attendees| && a.attendees[i].count == r.attendees[i].count + n
      && a.attendees[i].userId == u && a.attendees[i].name == r.attendees[i].name
      && forall k :: 0 <= k < |r.attendees| && k != i ==> a.attendees[k] == r.attendees[k]
  {
  }

  /**
   * A user not on the main list goes there whole, at the tail, exactly when
   * the party fits; otherwise all of it goes to the waitlist, onto the
   * user's entry there or at its tail, and the main list stays as it is.
   */
  lemma AddUnlisted(r: Lists, max: int, u: string, name: string, n: int)
    requires FindIndexById(r.attendees, u) == -1
    ensures var a := Add(r, max, u, name, n);
      (PlacementOf(r, max, u, n) == Main <==> TotalCount(r.attendees) + n <= max)
      && (PlacementOf(r, max, u, n) == Main ==>
            a.attendees == r.attendees + [Entry(u, name, n)] && a.waitlist == r.waitlist)
      && (PlacementOf(r, max, u, n) == Wait ==> a.attendees == r.attendees)
      && (PlacementOf(r, max, u, n) == Wait && FindIndexById(r.waitlist, u) == -1 ==>
            a.waitlist == r.waitlist + [Entry(u, name, n)])
      && (PlacementOf(r, max, u, n) == Wait && FindIndexById(r.waitlist, u) != -1 ==>
            var w := FindIndexById(r.waitlist, u);
            |a.waitlist| == |r.waitlist| && a.waitlist[w].count == r.waitlist[w].count + n
            && a.waitlist[w].userId == u && a.waitlist[w].name == r.waitlist[w].name
            && forall k :: 0 <= k < |r.waitlist| && k != w ==> a.waitlist[k] == r.waitlist[k])
  {
  }

  /** A party that joins the main list as a newcomer never takes it past `max`. */
  lemma AddNewcomerFits(r: Lists, max: int, u: string, name: string, n: int)
    requires FindIndexById(r.attendees, u) == -1 && n != 0
    requires PlacementOf(r, max, u, n) == Main
    ensures TotalCount(Add(r, max, u, name, n).attendees) <= max
  {
    Append(r.attendees, Entry(u, name, n), u);
  }

  /**
   * `addPeople` adds exactly `n` seats, all of them the user's, on the list
   * it reports, and keeps every other entry of both lists, in order.
   */
  lemma AddConserves(r: Lists, max: int, u: string, name: string, n: int)
    requires WellFormed(r) && n >= 1
    ensures var a := Add(r, max, u, name, n);
      WellFormed(a)
      && Combined(a) == Combined(r) + n
      && Holding(a, u) == Holding(r, u) + n
      && Without(a.attendees, u) == Without(r.attendees, u)
      && Without(a.waitlist, u) == Without(r.waitlist, u)
      && (PlacementOf(r, max, u, n) == Main ==>
            HeldBy(a.attendees, u) == HeldBy(r.attendees, u) + n && a.waitlist == r.waitlist)
      && (PlacementOf(r, max, u, n) == Wait ==>
            HeldBy(a.waitlist, u) == HeldBy(r.waitlist, u) + n && a.attendees == r.attendees)
  {
    var i := FindIndexById(r.attendees, u);
    if i != -1 {
      AddToEntry(r.attendees, i, n, u);
    } else if TotalCount(r.attendees) + n <= max {
      AddEntry(r.attendees, Entry(u, name, n));
    } else {
      var w := FindIndexById(r.waitlist, u);
      if w != -1 {
        AddToEntry(r.waitlist, w, n, u);
      } else {
        AddEntry(r.waitlist, Entry(u, name, n));
      }
    }
  }

  /** `list[i].count += n` on a well-formed list, for the entry's own user. */
  lemma AddToEntry(list: seq<Entry>, i: nat, n: int, u: string)
    requires Positive(list) && Distinct(list) && i < |list| && list[i].userId == u && n >= 0
    ensures var b := Bump(list, i, n);
      Positive(b) && Distinct(b) && TotalCount(b) == TotalCount(list) + n
      && HeldBy(b, u) == HeldBy(list, u) + n && Without(b, u) == Without(list, u)
  {
    BumpKeeps(list, i, n);
    Replace(list, i, list[i].(count := list[i].count + n), u);
  }

  /** `list.push(e)` on a well-formed list for a user not yet on it. */
  lemma AddEntry(list: seq<Entry>, e: Entry)
    requires Positive(list) && Distinct(list) && e.count >= 1
    requires FindIndexById(list, e.userId) == -1
    ensures Positive(list + [e]) && Distinct(list + [e])
    ensures TotalCount(list + [e]) == TotalCount(list) + e.count
    ensures HeldBy(list + [e], e.userId) == HeldBy(list, e.userId) + e.count
    ensures Without(list + [e], e.userId) == Without(list, e.userId)
  {
    assert Positive(list + [e]) && Distinct(list + [e]) by {
      PushKeeps(list, e);
    }
    Append(list, e, e.userId);
  }

  /** `addPeople` leaves the seats of every other user where they were. */
  lemma AddKeepsOthers(r: Lists, max: int, u: string, name: string, n: int, v: string)
    requires v != u
    ensures var a := Add(r, max, u, name, n);
      HeldBy(a.attendees, v) == HeldBy(r.attendees, v) && HeldBy(a.waitlist, v) == HeldBy(r.waitlist, v)
  {
    var i := FindIndexById(r.attendees, u);
    if i != -1 {
      OtherBump(r.attendees, i, n, v);
    } else if TotalCount(r.attendees) + n <= max {
      OtherPush(r.attendees, Entry(u, name, n), v);
    } else {
      var w := FindIndexById(r.waitlist, u);
      if w != -1 {
        OtherBump(r.waitlist, w, n, v);
      } else {
        OtherPush(r.waitlist, Entry(u, name, n), v);
      }
    }
  }

  lemma OtherBump(list: seq<Entry>, i: nat, n: int, v: string)
    requires i < |list| && list[i].userId != v
    ensures HeldBy(Bump(list, i, n), v) == HeldBy(list, v)
  {
    Replace(list, i, list[i].(count := list[i].count + n), v);
  }

  lemma OtherPush(list: seq<Entry>, e: Entry, v: string)
    requires e.userId != v
    ensures HeldBy(list + [e], v) == HeldBy(list, v)
  {
    Append(list, e, v);
  }

  lemma OtherSplice(list: seq<Entry>, i: nat, v: string)
    requires i < |list| && list[i].userId != v
    ensures HeldBy(Splice(list, i), v) == HeldBy(list, v)
  {
    SpliceSums(list, i, v);
  }

  /** The "already registered" path has no capacity check: a full event can go past `max`. */
  lemma AddListedIgnoresCapacity()
    ensures var r := Lists([Entry("A", "Amy", 8)], []);
      var a := Add(r, 8, "A", "Amy", 2);
      PlacementOf(r, 8, "A", 2) == Main && TotalCount(a.attendees) == 10
  {
    var r := Lists([Entry("A", "Amy", 8)], []);
    assert FindIndexById(r.attendees, "A") == 0;
    Single(Entry("A", "Amy", 10), "A");
  }

  // ---------------------------------------------------------------------------
  // removePeople: deduction
  // ---------------------------------------------------------------------------

  /** A list after a deduction, and what is still to be deducted. */
  datatype Taken = Taken(list: seq<Entry>, left: int)

  /** Deducting `amount` from the user's entry on one list; an entry that would drop to 0 or less is spliced out. */
  function TakeFrom(list: seq<Entry>, u: string, amount: int): Taken {
    var i := FindIndexById(list, u);
    if i == -1 then Taken(list, amount)
    else if list[i].count > amount then Taken(Bump(list, i, -amount), 0)
    else Taken(Splice(list, i), amount - list[i].count)
  }

  /** The deduction part of `removePeople`: the main entry first, then the waitlist entry. */
  function Deduct(r: Lists, u: string, nAbs: int): Lists {
    var a := TakeFrom(r.attendees, u, Abs(nAbs));
    if a.left > 0 then Lists(a.list, TakeFrom(r.waitlist, u, a.left).list)
    else Lists(a.list, r.waitlist)
  }

  /**
   * Where a deduction leaves `list`: untouched when the user has no entry,
   * the entry lowered at its own index (name and place in the queue kept)
   * when it holds more than `amount`, and otherwise the entry cut out with
   * the others closing up in order.
   */
  predicate TakenInPlace(list: seq<Entry>, u: string, amount: int, res: seq<Entry>) {
    var i := FindIndexById(list, u);
    (i == -1 ==> res == list)
    && (i != -1 && list[i].count > amount ==> res == list[i := list[i].(count := list[i].count - amount)])
    && (i != -1 && list[i].count <= amount ==> res == list[..i] + list[i + 1..])
  }

  /**
   * On a well-formed list, a deduction takes `min(amount, held)` of the
   * user's seats and leaves the rest to deduct; the user's entry goes
   * exactly when it is used up; other entries stay, in order.
   */
  lemma TakeFromFacts(list: seq<Entry>, u: string, amount: int)
    requires Positive(list) && Distinct(list) && amount >= 0
    ensures var t, h := TakeFrom(list, u, amount), HeldBy(list, u);
      Positive(t.list) && Distinct(t.list)
      && HeldBy(t.list, u) == h - Min(amount, h)
      && t.left == amount - Min(amount, h)
      && TotalCount(t.list) == TotalCount(list) - Min(amount, h)
      && Without(t.list, u) == Without(list, u)
      && (h <= amount <==> FindIndexById(t.list, u) == -1)
      && TakenInPlace(list, u, amount, t.list)
  {
    TakeFromCounts(list, u, amount);
    TakeFromInPlace(list, u, amount);
  }

  /** The seat counts of `TakeFromFacts`, without the positions. */
  lemma TakeFromCounts(list: seq<Entry>, u: string, amount: int)
    requires Positive(list) && Distinct(list) && amount >= 0
    ensures var t, h := TakeFrom(list, u, amount), HeldBy(list, u);
      Positive(t.list) && Distinct(t.list)
      && HeldBy(t.list, u) == h - Min(amount, h)
      && t.left == amount - Min(amount, h)
      && TotalCount(t.list) == TotalCount(list) - Min(amount, h)
      && Without(t.list, u) == Without(list, u)
      && (h <= amount <==> FindIndexById(t.list, u) == -1)
  {
    var i := FindIndexById(list, u);
    HeldByFound(list, u);
    if i != -1 {
      if list[i].count > amount {
        TakePart(list, i, amount, u);
      } else {
        TakeWhole(list, i, u);
      }
    }
  }

  lemma TakeFromInPlace(list: seq<Entry>, u: string, amount: int)
    ensures TakenInPlace(list, u, amount, TakeFrom(list, u, amount).list)
  {
    var i := FindIndexById(list, u);
    if i != -1 {
      if list[i].count > amount {
        assert Bump(list, i, -amount) == list[i := list[i].(count := list[i].count - amount)];
      } else {
        assert Splice(list, i) == list[..i] + list[i + 1..];
      }
    }
  }

  /** Deducting less than an entry holds keeps the entry, with that much fewer seats. */
  lemma TakePart(list: seq<Entry>, i: nat, amount: int, u: string)
    requires Positive(list) && Distinct(list) && i < |list| && list[i].userId == u
    requires 0 <= amount < list[i].count
    ensures var b := Bump(list, i, -amount);
      Positive(b) && Distinct(b) && TotalCount(b) == TotalCount(list) - amount
      && HeldBy(b, u) == HeldBy(list, u) - amount && Without(b, u) == Without(list, u)
      && FindIndexById(b, u) != -1
  {
    BumpKeeps(list, i, -amount);
    Replace(list, i, list[i].(count := list[i].count - amount), u);
    assert Bump(list, i, -amount)[i].userId == u;
  }

  /** Deducting at least what an entry holds splices it out, and the user is then off the list. */
  lemma TakeWhole(list: seq<Entry>, i: nat, u: string)
    requires Positive(list) && Distinct(list) && i < |list| && list[i].userId == u
    ensures var s := Splice(list, i);
      Positive(s) && Distinct(s) && TotalCount(s) == TotalCount(list) - list[i].count
      && HeldBy(s, u) == HeldBy(list, u) - list[i].count && Without(s, u) == Without(list, u)
      && FindIndexById(s, u) == -1
  {
    SpliceKeeps(list, i);
    SpliceSums(list, i, u);
    var s := Splice(list, i);
    forall k | 0 <= k < |s| ensures s[k].userId != u {
      if k >= i { assert s[k] == list[k + 1]; }
    }
  }

  /**
   * The deduction takes `min(|nAbs|, held)` of the user's seats, from the
   * main list first and from the waitlist only for what the main list did
   * not cover, and touches no other user's entry.
   */
  lemma DeductFacts(r: Lists, u: string, nAbs: int)
    requires WellFormed(r)
    ensures var d, take := Deduct(r, u, nAbs), Min(Abs(nAbs), Holding(r, u));
      WellFormed(d)
      && Combined(d) == Combined(r) - take
      && Holding(d, u) == Holding(r, u) - take
      && HeldBy(d.attendees, u) == HeldBy(r.attendees, u) - Min(Abs(nAbs), HeldBy(r.attendees, u))
      && (Abs(nAbs) <= HeldBy(r.attendees, u) ==> d.waitlist == r.waitlist)
      && Without(d.attendees, u) == Without(r.attendees, u)
      && Without(d.waitlist, u) == Without(r.waitlist, u)
      && TakenInPlace(r.attendees, u, Abs(nAbs), d.attendees)
      && (Abs(nAbs) > HeldBy(r.attendees, u) ==>
            TakenInPlace(r.waitlist, u, Abs(nAbs) - HeldBy(r.attendees, u), d.waitlist))
  {
    var a := TakeFrom(r.attendees, u, Abs(nAbs));
    assert a.left == Abs(nAbs) - Min(Abs(nAbs), HeldBy(r.attendees, u)) by {
      TakeFromCounts(r.attendees, u, Abs(nAbs));
    }
    DeductTotals(r, u, nAbs);
    TakeFromInPlace(r.attendees, u, Abs(nAbs));
    if a.left > 0 {
      TakeFromInPlace(r.waitlist, u, a.left);
    }
  }

  lemma DeductTotals(r: Lists, u: string, nAbs: int)
    requires WellFormed(r)
    ensures var d, take := Deduct(r, u, nAbs), Min(Abs(nAbs), Holding(r, u));
      WellFormed(d)
      && Combined(d) == Combined(r) - take
      && Holding(d, u) == Holding(r, u) - take
      && HeldBy(d.attendees, u) == HeldBy(r.attendees, u) - Min(Abs(nAbs), HeldBy(r.attendees, u))
      && (Abs(nAbs) <= HeldBy(r.attendees, u) ==> d.waitlist == r.waitlist)
      && Without(d.attendees, u) == Without(r.attendees, u)
      && Without(d.waitlist, u) == Without(r.waitlist, u)
  {
    var a := TakeFrom(r.attendees, u, Abs(nAbs));
    TakeFromCounts(r.attendees, u, Abs(nAbs));
    PositiveSums(r.attendees, u);
    PositiveSums(r.waitlist, u);
    if a.left > 0 {
      TakeFromCounts(r.waitlist, u, a.left);
    }
  }

  /** Deduction leaves every other user's seats on both lists as they were. */
  lemma DeductKeepsOthers(r: Lists, u: string, nAbs: int, v: string)
    requires v != u
    ensures var d := Deduct(r, u, nAbs);
      HeldBy(d.attendees, v) == HeldBy(r.attendees, v) && HeldBy(d.waitlist, v) == HeldBy(r.waitlist, v)
  {
    var a := TakeFrom(r.attendees, u, Abs(nAbs));
    TakeFromKeepsOthers(r.attendees, u, Abs(nAbs), v);
    if a.left > 0 {
      TakeFromKeepsOthers(r.waitlist, u, a.left, v);
    }
  }

  lemma TakeFromKeepsOthers(list: seq<Entry>, u: string, amount: int, v: string)
    requires v != u
    ensures HeldBy(TakeFrom(list, u, amount).list, v) == HeldBy(list, v)
  {
    var i := FindIndexById(list, u);
    if i == -1 {
    } else if list[i].count > amount {
      OtherBump(list, i, -amount, v);
    } else {
      OtherSplice(list, i, v);
    }
  }

  // ---------------------------------------------------------------------------
  // removePeople: promotion from the waitlist
  // ---------------------------------------------------------------------------

  /** `Math.min(first.count, max - cur)`: the seats one round moves off the head of the waitlist. */
  function CanTake(r: Lists, max: int, cur: int): int
    requires r.waitlist != []
  {
    Min(r.waitlist[0].count, max - cur)
  }

  /** The main list after `canTake` seats of a waiting party join it: onto the user's entry, or as a new entry at the tail. */
  function JoinMain(attendees: seq<Entry>, first: Entry, canTake: int): seq<Entry> {
    var i := FindIndexById(attendees, first.userId);
    if i == -1 then attendees + [Entry(first.userId, first.name, canTake)]
    else Bump(attendees, i, canTake)
  }

  /** The waitlist after `canTake` seats left its head: the head is shifted off once its count reaches 0 or less. */
  function LeaveHead(waitlist: seq<Entry>, canTake: int): (w: seq<Entry>)
    requires waitlist != []
    ensures |w| < |waitlist| || waitlist[0].count - canTake > 0
  {
    var first := waitlist[0];
    if first.count - canTake <= 0 then waitlist[1..]
    else waitlist[0 := first.(count := first.count - canTake)]
  }

  /** One round of the promotion loop: `canTake` seats move from the head of the waitlist to the main list. */
  function PromoteStep(r: Lists, max: int, cur: int): (s: Lists)
    requires r.waitlist != []
    ensures |s.waitlist| < |r.waitlist| || (|s.waitlist| == |r.waitlist| && cur + CanTake(r, max, cur) == max)
  {
    var canTake := CanTake(r, max, cur);
    Lists(JoinMain(r.attendees, r.waitlist[0], canTake), LeaveHead(r.waitlist, canTake))
  }

  /** The promotion loop of `removePeople`, run from a main total `cur`. */
  function Promote(r: Lists, max: int, cur: int): Lists
    decreases |r.waitlist|, max - cur
  {
    if cur < max && |r.waitlist| > 0 then
      Promote(PromoteStep(r, max, cur), max, cur + CanTake(r, max, cur))
    else r
  }

  /** One round of the loop, then the rest of it. */
  lemma PromoteUnfold(r: Lists, max: int, cur: int)
    requires cur < max && r.waitlist != []
    ensures Promote(r, max, cur) == Promote(PromoteStep(r, max, cur), max, cur + CanTake(r, max, cur))
  {
  }

  /** The lists after `removePeople(evt, u, nAbs)`. */
  function Remove(r: Lists, max: int, u: string, nAbs: int): Lists {
    var d := Deduct(r, u, nAbs);
    Promote(d, max, TotalCount(d.attendees))
  }

  /** The promotion loop never lengthens the waitlist, never drops a main entry, and stops at once when full or when nobody waits. */
  lemma {:induction false} PromoteLengths(r: Lists, max: int, cur: int)
    ensures var p := Promote(r, max, cur);
      |p.waitlist| <= |r.waitlist| && |r.attendees| <= |p.attendees|
      && (cur >= max || r.waitlist == [] ==> p == r)
    decreases |r.waitlist|, max - cur
  {
    if cur < max && |r.waitlist| > 0 {
      PromoteLengths(PromoteStep(r, max, cur), max, cur + CanTake(r, max, cur));
    }
  }

  /**
   * The waitlist `w2` is what remains of `w1` after seats were taken from
   * its head only: a suffix of `w1`, except that its first party may be
   * the head that was promoted in part, with the same user and name and
   * fewer seats.
   */
  predicate DrainedFromHead(w1: seq<Entry>, w2: seq<Entry>) {
    |w2| <= |w1|
    && (w2 == []
        || (var k := |w1| - |w2|;
            w2[1..] == w1[k + 1..] && w2[0].userId == w1[k].userId && w2[0].name == w1[k].name
            && w2[0].count <= w1[k].count))
  }

  /** The main list `a2` keeps every entry of `a1` in place, with at least as many seats. */
  predicate GrownInPlace(a1: seq<Entry>, a2: seq<Entry>) {
    |a1| <= |a2|
    && forall k :: 0 <= k < |a1| ==>
         a2[k].userId == a1[k].userId && a2[k].name == a1[k].name && a2[k].count >= a1[k].count
  }

  lemma DrainedTransitive(w1: seq<Entry>, w2: seq<Entry>, w3: seq<Entry>)
    requires DrainedFromHead(w1, w2) && DrainedFromHead(w2, w3)
    ensures DrainedFromHead(w1, w3)
  {
    if w3 != [] {
      var k1, k2 := |w1| - |w2|, |w2| - |w3|;
      if k2 > 0 {
        assert w2[k2] == w2[1..][k2 - 1] == w1[k1 + 1 + k2 - 1];
        assert w2[k2 + 1..] == w2[1..][k2..];
      }
    }
  }

  /** Seats joining the main list keep it well formed, grow it in place and all go to the party's user. */
  lemma JoinMainFacts(attendees: seq<Entry>, first: Entry, c: int)
    requires Positive(attendees) && Distinct(attendees) && c >= 1
    ensures var a := JoinMain(attendees, first, c);
      Positive(a) && Distinct(a) && GrownInPlace(attendees, a)
      && TotalCount(a) == TotalCount(attendees) + c
      && forall v :: HeldBy(a, v) == HeldBy(attendees, v) + (if v == first.userId then c else 0)
  {
    var i := FindIndexById(attendees, first.userId);
    if i == -1 {
      AddEntry(attendees, Entry(first.userId, first.name, c));
      forall v | v != first.userId ensures HeldBy(JoinMain(attendees, first, c), v) == HeldBy(attendees, v) {
        OtherPush(attendees, Entry(first.userId, first.name, c), v);
      }
    } else {
      AddToEntry(attendees, i, c, first.userId);
      forall v | v != first.userId ensures HeldBy(JoinMain(attendees, first, c), v) == HeldBy(attendees, v) {
        OtherBump(attendees, i, c, v);
      }
    }
  }

  /** Seats leaving the head keep the waitlist well formed, drain it from the head and are all the head user's. */
  lemma LeaveHeadFacts(waitlist: seq<Entry>, c: int)
    requires Positive(waitlist) && Distinct(waitlist) && waitlist != [] && 1 <= c <= waitlist[0].count
    ensures var w := LeaveHead(waitlist, c);
      Positive(w) && Distinct(w) && DrainedFromHead(waitlist, w)
      && TotalCount(w) == TotalCount(waitlist) - c
      && forall v :: HeldBy(w, v) == HeldBy(waitlist, v) - (if v == waitlist[0].userId then c else 0)
  {
    if waitlist[0].count - c <= 0 {
      assert LeaveHead(waitlist, c) == waitlist[1..] && c == waitlist[0].count;
      ShiftFacts(waitlist);
    } else {
      assert LeaveHead(waitlist, c) == Bump(waitlist, 0, -c);
      HeadPartFacts(waitlist, c);
    }
  }

  /** Part of the head party leaving: the head stays, with `c` fewer seats. */
  lemma HeadPartFacts(waitlist: seq<Entry>, c: int)
    requires Positive(waitlist) && Distinct(waitlist) && waitlist != [] && 1 <= c < waitlist[0].count
    ensures var w := Bump(waitlist, 0, -c);
      Positive(w) && Distinct(w) && DrainedFromHead(waitlist, w)
      && TotalCount(w) == TotalCount(waitlist) - c
      && forall v :: HeldBy(w, v) == HeldBy(waitlist, v) - (if v == waitlist[0].userId then c else 0)
  {
    var u := waitlist[0].userId;
    TakePart(waitlist, 0, c, u);
    forall v | v != u ensures HeldBy(Bump(waitlist, 0, -c), v) == HeldBy(waitlist, v) {
      OtherBump(waitlist, 0, -c, v);
    }
    assert Bump(waitlist, 0, -c)[1..] == waitlist[1..];
  }

  /** `waitlist.shift()` on a well-formed list. */
  lemma ShiftFacts(waitlist: seq<Entry>)
    requires Positive(waitlist) && Distinct(waitlist) && waitlist != []
    ensures var w, u := waitlist[1..], waitlist[0].userId;
      Positive(w) && Distinct(w) && DrainedFromHead(waitlist, w)
      && TotalCount(w) == TotalCount(waitlist) - waitlist[0].count
      && forall v :: HeldBy(w, v) == HeldBy(waitlist, v) - (if v == u then waitlist[0].count else 0)
  {
    var u := waitlist[0].userId;
    assert Splice(waitlist, 0) == waitlist[1..];
    TakeWhole(waitlist, 0, u);
    forall v | v != u ensures HeldBy(waitlist[1..], v) == HeldBy(waitlist, v) {
      OtherSplice(waitlist, 0, v);
    }
  }

  /**
   * One round, from a well-formed state whose main total is `cur`: between
   * one seat and the head's count moves, the main total stays within `max`
   * and the state stays well formed.
   */
  lemma PromoteStepTotals(r: Lists, max: int, cur: int)
    requires WellFormed(r) && cur == TotalCount(r.attendees) && cur < max && r.waitlist != []
    ensures var s, c := PromoteStep(r, max, cur), CanTake(r, max, cur);
      WellFormed(s)
      && 1 <= c <= r.waitlist[0].count && cur + c <= max
      && TotalCount(s.attendees) == cur + c
      && TotalCount(s.waitlist) == TotalCount(r.waitlist) - c
  {
    var c := CanTake(r, max, cur);
    JoinMainFacts(r.attendees, r.waitlist[0], c);
    LeaveHeadFacts(r.waitlist, c);
  }

  /** One round moves seats within one user's holding: nobody gains or loses a seat. */
  lemma PromoteStepHoldings(r: Lists, max: int, cur: int)
    requires WellFormed(r) && cur < max && r.waitlist != []
    ensures forall v :: Holding(PromoteStep(r, max, cur), v) == Holding(r, v)
  {
    var c := CanTake(r, max, cur);
    JoinMainFacts(r.attendees, r.waitlist[0], c);
    LeaveHeadFacts(r.waitlist, c);
  }

  /** One round takes from the head of the waitlist only and shrinks no main entry. */
  lemma PromoteStepOrder(r: Lists, max: int, cur: int)
    requires WellFormed(r) && cur < max && r.waitlist != []
    ensures DrainedFromHead(r.waitlist, PromoteStep(r, max, cur).waitlist)
    ensures GrownInPlace(r.attendees, PromoteStep(r, max, cur).attendees)
  {
    var c := CanTake(r, max, cur);
    JoinMainFacts(r.attendees, r.waitlist[0], c);
    LeaveHeadFacts(r.waitlist, c);
  }

  /** The promotion loop keeps the lists well formed and every user's seats, so the combined total too. */
  lemma {:induction false} PromoteKeeps(r: Lists, max: int)
    requires WellFormed(r)
    ensures var p := Promote(r, max, TotalCount(r.attendees));
      WellFormed(p) && Combined(p) == Combined(r) && forall v :: Holding(p, v) == Holding(r, v)
    decreases |r.waitlist|, max - TotalCount(r.attendees)
  {
    var cur := TotalCount(r.attendees);
    if cur < max && |r.waitlist| > 0 {
      var s := PromoteStep(r, max, cur);
      PromoteStepTotals(r, max, cur);
      PromoteStepHoldings(r, max, cur);
      assert Promote(r, max, cur) == Promote(s, max, TotalCount(s.attendees));
      PromoteKeeps(s, max);
    }
  }

  /**
   * What the promotion loop achieves from `r`: it ends with the main list
   * full or the waitlist empty, and its main total is then
   * `min(max, cur + waiting)`, or `cur` if the main list was full already.
   */
  predicate Fills(r: Lists, max: int) {
    var cur, p := TotalCount(r.attendees), Promote(r, max, TotalCount(r.attendees));
    (TotalCount(p.attendees) >= max || p.waitlist == [])
    && TotalCount(p.attendees) == (if cur >= max then cur else Min(max, cur + TotalCount(r.waitlist)))
  }

  /** On well-formed lists the promotion loop fills the main list as far as the waitlist allows. */
  lemma {:induction false} PromoteFills(r: Lists, max: int)
    requires WellFormed(r)
    ensures Fills(r, max)
    decreases |r.waitlist|, max - TotalCount(r.attendees)
  {
    var cur := TotalCount(r.attendees);
    if cur < max && |r.waitlist| > 0 {
      var s := PromoteStep(r, max, cur);
      assert WellFormed(s) && TotalCount(s.attendees) > cur by { PromoteStepTotals(r, max, cur); }
      PromoteFills(s, max);
      FillsStep(r, max);
    } else {
      FillsDone(r, max);
    }
  }

  /** A loop that does not start leaves the lists as they are. */
  lemma FillsDone(r: Lists, max: int)
    requires WellFormed(r) && (TotalCount(r.attendees) >= max || r.waitlist == [])
    ensures Fills(r, max)
  {
    assert Promote(r, max, TotalCount(r.attendees)) == r;
    if r.waitlist == [] {
      assert TotalCount(r.waitlist) == 0;
    }
  }

  /** One round of the loop, followed by a rest of the loop that fills the main list, fills it. */
  lemma FillsStep(r: Lists, max: int)
    requires WellFormed(r) && TotalCount(r.attendees) < max && r.waitlist != []
    requires Fills(PromoteStep(r, max, TotalCount(r.attendees)), max)
    ensures Fills(r, max)
  {
    var cur := TotalCount(r.attendees);
    var s := PromoteStep(r, max, cur);
    var c := CanTake(r, max, cur);
    var ts, ws := TotalCount(s.attendees), TotalCount(s.waitlist);
    assert Positive(s.waitlist) && 1 <= c && cur + c <= max && ts == cur + c && ws == TotalCount(r.waitlist) - c by {
      PromoteStepTotals(r, max, cur);
    }
    var p := Promote(s, max, ts);
    assert Promote(r, max, cur) == p by { PromoteUnfold(r, max, cur); }
    assert ws >= 0 by { PositiveSums(s.waitlist, ""); }
    ExactTotalStep(cur, c, max, TotalCount(r.waitlist), ws, ts, TotalCount(p.attendees));
  }

  lemma ExactTotalStep(cur: int, c: int, max: int, waitR: int, waitS: int, curS: int, total: int)
    requires cur < max && 1 <= c && cur + c <= max && curS == cur + c && waitS == waitR - c && waitS >= 0
    requires total == (if curS >= max then curS else Min(max, curS + waitS))
    ensures total == Min(max, cur + waitR)
  {
  }

  /** The promotion loop takes from the head of the waitlist only, in order, and shrinks no main entry. */
  lemma {:induction false} PromoteOrder(r: Lists, max: int)
    requires WellFormed(r)
    ensures var p := Promote(r, max, TotalCount(r.attendees));
      DrainedFromHead(r.waitlist, p.waitlist) && GrownInPlace(r.attendees, p.attendees)
    decreases |r.waitlist|, max - TotalCount(r.attendees)
  {
    var cur := TotalCount(r.attendees);
    if cur < max && |r.waitlist| > 0 {
      var s := PromoteStep(r, max, cur);
      PromoteStepTotals(r, max, cur);
      PromoteStepOrder(r, max, cur);
      var p := Promote(s, max, TotalCount(s.attendees));
      assert Promote(r, max, cur) == p;
      PromoteOrder(s, max);
      DrainedTransitive(r.waitlist, s.waitlist, p.waitlist);
    }
  }

  /**
   * `removePeople` takes `min(|nAbs|, held)` seats off the combined total,
   * all of them the user's, keeps every other user's seats, keeps the lists
   * well formed, and leaves the main list full or the waitlist empty.
   */
  lemma RemoveFacts(r: Lists, max: int, u: string, nAbs: int)
    requires WellFormed(r)
    ensures var p, take := Remove(r, max, u, nAbs), Min(Abs(nAbs), Holding(r, u));
      WellFormed(p)
      && Combined(p) == Combined(r) - take
      && Holding(p, u) == Holding(r, u) - take
      && (forall v :: v != u ==> Holding(p, v) == Holding(r, v))
      && (TotalCount(p.attendees) >= max || p.waitlist == [])
  {
    var d := Deduct(r, u, nAbs);
    DeductTotals(r, u, nAbs);
    PromoteKeeps(d, max);
    PromoteFills(d, max);
    forall v | v != u ensures Holding(Remove(r, max, u, nAbs), v) == Holding(r, v) {
      DeductKeepsOthers(r, u, nAbs, v);
    }
  }

  /**
   * A partial promotion leaves the same user on both lists: with 8 seats
   * taken by A and 3 waiting for B, A's "-1" moves one of B's seats up.
   */
  lemma PartialPromotionSplitsParty()
    ensures Remove(Lists([Entry("A", "Amy", 8)], [Entry("B", "Ben", 3)]), 8, "A", -1)
         == Lists([Entry("A", "Amy", 7), Entry("B", "Ben", 1)], [Entry("B", "Ben", 2)])
  {
    var r := Lists([Entry("A", "Amy", 8)], [Entry("B", "Ben", 3)]);
    var d := Lists([Entry("A", "Amy", 7)], [Entry("B", "Ben", 3)]);
    assert FindIndexById(r.attendees, "A") == 0;
    assert Deduct(r, "A", -1) == d;
    Single(Entry("A", "Amy", 7), "");
    assert FindIndexById(d.attendees, "B") == -1;
    var s := Lists([Entry("A", "Amy", 7), Entry("B", "Ben", 1)], [Entry("B", "Ben", 2)]);
    assert PromoteStep(d, 8, 7) == s;
  }
}
