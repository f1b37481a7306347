/**
 * Birthday records and the read-only views computed from a list of them: which birthdays
 * fall today, the "upcoming" list and the "next birthday" statistic.
 */
module Birthdays {
  import opened Wrappers
  import opened Calendar
  import opened Text
  import Seqs

  /** A birthday contact. Empty strings stand for absent or falsy fields; `mongoId` is `_id`. */
  datatype Birthday = Birthday(
    id: string, mongoId: string, name: string, date: DateField, relationship: string,
    phoneNumber: string, email: string, notes: string, photoUrl: string, userId: string)

  /** `birthday.id || birthday._id`: the id in notification keys. */
  function EntityId(b: Birthday): string
  {
    Or(b.id, b.mongoId)
  }

  /** `b._id || b.id`: the id the edit and delete lookups compare against. */
  function LookupId(b: Birthday): string
  {
    Or(b.mongoId, b.id)
  }

  /** The birthday-today test: the date is present and its month and day are today's;
      the year is ignored. */
  predicate IsBirthdayToday(b: Birthday, today: Date)
  {
    b.date.OnDate? && b.date.date.month == today.month && b.date.date.day == today.day
  }

  function IsBirthdayTodayFn(today: Date): Birthday -> bool
  {
    b => IsBirthdayToday(b, today)
  }

  /** The birthdays falling today, in list order. */
  function TodaysBirthdays(bs: seq<Birthday>, today: Date): (r: seq<Birthday>)
    ensures forall b :: b in r <==> b in bs && IsBirthdayToday(b, today)
  {
    Seqs.Filter(bs, IsBirthdayTodayFn(today))
  }

  /** Only the month and day of a birth date matter: two birthdays whose dates differ only in
      the year fall today together and are the same number of days away. */
  lemma YearIgnored(b1: Birthday, b2: Birthday, now: Now)
    requires b1.date.OnDate? && b2.date.OnDate?
    requires b1.date.date.month == b2.date.date.month && b1.date.date.day == b2.date.date.day
    ensures IsBirthdayToday(b1, now.date) <==> IsBirthdayToday(b2, now.date)
    ensures DaysUntilBirthday(b1.date, now) == DaysUntilBirthday(b2.date, now)
  {
  }

  /** A birthday falling today is 0 days away at midnight (and, by BirthdayTodayRollsOver, a
      year away once the clock is past it). */
  lemma BirthdayTodayAtMidnight(b: Birthday, now: Now)
    requires IsBirthdayToday(b, now.date) && now.msOfDay == 0
    ensures DaysUntilBirthday(b.date, now) == Some(0)
  {
    DaysUntilNonNegative(b.date.date, now);
  }

  /** `{...birthday, daysUntil}` for a record whose days-until is a number. */
  datatype Dated = Dated(birthday: Birthday, daysUntil: int)

  /** The list mapped to `{...b, daysUntil}` and filtered by `keep` on the day count;
      a NaN count fails every comparison and is dropped. */
  function DatedWhere(bs: seq<Birthday>, now: Now, lo: int, hi: int): (r: seq<Dated>)
    ensures |r| <= |bs|
    ensures forall e :: e in r ==> e.birthday in bs && lo <= e.daysUntil <= hi
                                   && DaysUntilBirthday(e.birthday.date, now) == Some(e.daysUntil)
    ensures forall b :: b in bs && DaysUntilBirthday(b.date, now).Some?
                        && lo <= DaysUntilBirthday(b.date, now).value <= hi
                        ==> Dated(b, DaysUntilBirthday(b.date, now).value) in r
    decreases |bs|
  {
    if bs == [] then []
    else
      var rest := DatedWhere(bs[1..], now, lo, hi);
      assert forall b :: b in bs[1..] ==> b in bs;
      match DaysUntilBirthday(bs[0].date, now)
      case Some(d) => if lo <= d <= hi then [Dated(bs[0], d)] + rest else rest
      case None => rest
  }

  ghost predicate SortedByDays(s: seq<Dated>)
  {
    forall i, j :: 0 <= i < j < |s| ==> s[i].daysUntil <= s[j].daysUntil
  }

  /** Insert `x` before the first element whose day count is not smaller (so equal keys keep
      their original order, as the stable `Array.prototype.sort` does). */
  function Insert(x: Dated, s: seq<Dated>): (r: seq<Dated>)
    ensures |r| == |s| + 1
    ensures multiset(r) == multiset(s) + multiset{x}
    decreases |s|
  {
    if s == [] || x.daysUntil <= s[0].daysUntil then [x] + s
    else
      assert s == [s[0]] + s[1..];
      [s[0]] + Insert(x, s[1..])
  }

  /** A sorted list with an element no later than all of it in front is sorted. */
  lemma SortedCons(h: Dated, t: seq<Dated>)
    requires SortedByDays(t) && forall j :: 0 <= j < |t| ==> h.daysUntil <= t[j].daysUntil
    ensures SortedByDays([h] + t)
  {
    var r := [h] + t;
    forall i, j | 0 <= i < j < |r|
      ensures r[i].daysUntil <= r[j].daysUntil
    {
      assert r[j] == t[j - 1];
      if i > 0 {
        assert r[i] == t[i - 1];
      }
    }
  }

  /** A lower bound of `x` and of every element of `s` bounds every element of the result. */
  lemma {:induction false} InsertBound(x: Dated, s: seq<Dated>, lo: int)
    requires lo <= x.daysUntil && forall j :: 0 <= j < |s| ==> lo <= s[j].daysUntil
    ensures forall j :: 0 <= j < |Insert(x, s)| ==> lo <= Insert(x, s)[j].daysUntil
    decreases |s|
  {
    var r := Insert(x, s);
    if s == [] || x.daysUntil <= s[0].daysUntil {
      assert r == [x] + s;
      forall j | 0 < j < |r|
        ensures lo <= r[j].daysUntil
      {
        assert r[j] == s[j - 1];
      }
    } else {
      var t := Insert(x, s[1..]);
      InsertBound(x, s[1..], lo);
      assert r == [s[0]] + t;
      forall j | 0 < j < |r|
        ensures lo <= r[j].daysUntil
      {
        assert r[j] == t[j - 1];
      }
    }
  }

  /** Inserting into a sorted list keeps it sorted. */
  lemma {:induction false} InsertSorted(x: Dated, s: seq<Dated>)
    requires SortedByDays(s)
    ensures SortedByDays(Insert(x, s))
    decreases |s|
  {
    if s == [] || x.daysUntil <= s[0].daysUntil {
      assert forall j :: 0 <= j < |s| ==> s[0].daysUntil <= s[j].daysUntil;
      SortedCons(x, s);
    } else {
      var t := Insert(x, s[1..]);
      InsertSorted(x, s[1..]);
      assert forall j :: 0 <= j < |s| - 1 ==> s[1..][j] == s[j + 1];
      InsertBound(x, s[1..], s[0].daysUntil);
      SortedCons(s[0], t);
    }
  }

  /** `.sort((a, b) => a.daysUntil - b.daysUntil)`: ascending by day count, a permutation. */
  function SortByDays(s: seq<Dated>): (r: seq<Dated>)
    ensures SortedByDays(r)
    ensures multiset(r) == multiset(s)
    ensures |r| == |s|
    decreases |s|
  {
    if s == [] then []
    else
      assert s == [s[0]] + s[1..];
      var t := SortByDays(s[1..]);
      InsertSorted(s[0], t);
      Insert(s[0], t)
  }

  function Min(a: int, b: int): int
  {
    if a <= b then a else b
  }

  /** `loadUpcomingBirthdays`: days-until at most 30, ascending, the first five. */
  function Upcoming(bs: seq<Birthday>, now: Now): (r: seq<Dated>)
    ensures |r| == Min(5, |DatedWhere(bs, now, 0, 30)|)
    ensures SortedByDays(r)
  {
    var sorted := SortByDays(DatedWhere(bs, now, 0, 30));
    sorted[..Min(5, |sorted|)]
  }

  /** Of a sorted list, the entries past the first `k` are no nearer than those kept. */
  lemma {:induction false} PrefixIsNearest(sorted: seq<Dated>, k: nat)
    requires SortedByDays(sorted) && k <= |sorted|
    ensures forall x, e :: x in multiset(sorted) - multiset(sorted[..k]) && e in sorted[..k]
                           ==> e.daysUntil <= x.daysUntil
  {
    assert sorted == sorted[..k] + sorted[k..];
    assert multiset(sorted) == multiset(sorted[..k]) + multiset(sorted[k..]);
    forall x, e | x in multiset(sorted) - multiset(sorted[..k]) && e in sorted[..k]
      ensures e.daysUntil <= x.daysUntil
    {
      assert x in sorted[k..];
      var j :| k <= j < |sorted| && sorted[j] == x;
      var i :| 0 <= i < k && sorted[i] == e;
    }
  }

  /**
   * The upcoming list has at most five entries, each a birthday of the list with its true
   * day count, at most 30, in ascending order.
   */
  lemma {:induction false} UpcomingEntries(bs: seq<Birthday>, now: Now)
    ensures |Upcoming(bs, now)| <= 5
    ensures SortedByDays(Upcoming(bs, now))
    ensures forall e :: e in Upcoming(bs, now) ==>
              e.birthday in bs && e.daysUntil <= 30 && DaysUntilBirthday(e.birthday.date, now) == Some(e.daysUntil)
  {
    var w := DatedWhere(bs, now, 0, 30);
    var sorted := SortByDays(w);
    var u := sorted[..Min(5, |sorted|)];
    assert Upcoming(bs, now) == u;
    forall e | e in u ensures e in w {
      assert e in multiset(sorted);
    }
  }

  /**
   * The upcoming list holds as many of the qualifying birthdays (day count at most 30) as fit
   * in five, each taken from them, and every qualifying entry left out is no nearer than any
   * entry shown.
   */
  lemma {:induction false} UpcomingAreNearest(bs: seq<Birthday>, now: Now)
    ensures |Upcoming(bs, now)| == Min(5, |DatedWhere(bs, now, 0, 30)|)
    ensures multiset(Upcoming(bs, now)) <= multiset(DatedWhere(bs, now, 0, 30))
    ensures forall x, e ::
              x in multiset(DatedWhere(bs, now, 0, 30)) - multiset(Upcoming(bs, now)) && e in Upcoming(bs, now)
              ==> e.daysUntil <= x.daysUntil
  {
    var w := DatedWhere(bs, now, 0, 30);
    var sorted := SortByDays(w);
    var k := Min(5, |sorted|);
    var u := sorted[..k];
    assert Upcoming(bs, now) == u;
    assert sorted == u + sorted[k..];
    assert multiset(sorted) == multiset(u) + multiset(sorted[k..]);
    PrefixIsNearest(sorted, k);
  }

  /** `updateStats`' next birthday: the smallest strictly positive day count, or None
      (shown as 'None'). */
  function NextBirthdayDays(bs: seq<Birthday>, now: Now): (r: Option<int>)
    ensures r.Some? ==> 0 < r.value <= DaysUntilBound(bs, now)
  {
    var w := DatedWhere(bs, now, 1, DaysUntilBound(bs, now));
    var sorted := SortByDays(w);
    if sorted == [] then None
    else
      assert sorted[0] in multiset(w);
      Some(sorted[0].daysUntil)
  }

  /** An upper bound on every day count of the list; the `> 0` filter has no upper limit. */
  function DaysUntilBound(bs: seq<Birthday>, now: Now): (r: int)
    ensures forall b :: b in bs && DaysUntilBirthday(b.date, now).Some?
                        ==> DaysUntilBirthday(b.date, now).value <= r
    decreases |bs|
  {
    if bs == [] then 0
    else
      var rest := DaysUntilBound(bs[1..], now);
      assert forall b :: b in bs ==> b == bs[0] || b in bs[1..];
      match DaysUntilBirthday(bs[0].date, now)
      case Some(d) => if d > rest then d else rest
      case None => rest
  }

  /**
   * The next-birthday statistic is None exactly when no birthday is a positive number of days
   * away; otherwise it is the day count of some birthday and no positive count is smaller.
   */
  lemma {:induction false} NextBirthdayIsMinimum(bs: seq<Birthday>, now: Now)
    ensures NextBirthdayDays(bs, now).None?
            <==> forall b :: b in bs ==> !(DaysUntilBirthday(b.date, now).Some? && DaysUntilBirthday(b.date, now).value > 0)
    ensures NextBirthdayDays(bs, now).Some? ==>
              var d := NextBirthdayDays(bs, now).value;
              d > 0
              && (exists b :: b in bs && DaysUntilBirthday(b.date, now) == Some(d))
              && forall b :: b in bs && DaysUntilBirthday(b.date, now).Some? && DaysUntilBirthday(b.date, now).value > 0
                             ==> d <= DaysUntilBirthday(b.date, now).value
  {
    var hi := DaysUntilBound(bs, now);
    var w := DatedWhere(bs, now, 1, hi);
    var sorted := SortByDays(w);
    assert NextBirthdayDays(bs, now) == if sorted == [] then None else Some(sorted[0].daysUntil);
    forall b | b in bs && DaysUntilBirthday(b.date, now).Some? && DaysUntilBirthday(b.date, now).value > 0
      ensures sorted != [] && sorted[0].daysUntil <= DaysUntilBirthday(b.date, now).value
    {
      var e := Dated(b, DaysUntilBirthday(b.date, now).value);
      assert e in w;
      assert e in multiset(sorted);
      SortedHeadIsMin(sorted, e);
    }
    if sorted != [] {
      assert sorted[0] in multiset(w);
      assert sorted[0] in w;
    }
  }

  /** The head of a sorted list is no later than any of its elements. */
  lemma SortedHeadIsMin(sorted: seq<Dated>, e: Dated)
    requires SortedByDays(sorted) && e in multiset(sorted)
    ensures sorted != [] && sorted[0].daysUntil <= e.daysUntil
  {
    var j :| 0 <= j < |sorted| && sorted[j] == e;
  }
}
