/**
 * The per-day "shown" table kept under `whatsappShownToday`: a map from
 * `"<today's date string>_<birthday id>"` to `true`. It is pruned to today's keys, written for
 * every birthday that falls today, and one entry is deleted when an edited birthday falls today.
 * Nothing in the application reads an entry before deciding to notify.
 */
module ShownToday {
  import opened Calendar
  import opened Birthdays
  import opened Text

  type ShownMap = map<string, bool>

  /** `${todayKey}_${id}`. */
  function Key(todayKey: string, id: string): (k: string)
    ensures StartsWith(k, todayKey)
  {
    todayKey + "_" + id
  }

  /** The entries whose key starts with today's date string. */
  function Pruned(m: ShownMap, todayKey: string): (r: ShownMap)
    ensures forall k :: k in r ==> k in m && StartsWith(k, todayKey) && r[k] == m[k]
  {
    map k | k in m && StartsWith(k, todayKey) :: m[k]
  }

  /** Pruning keeps every one of today's entries with its value (Pruned's own contract says it
      keeps nothing else). */
  lemma PrunedFacts(m: ShownMap, todayKey: string)
    ensures forall k :: k in m && StartsWith(k, todayKey) ==> k in Pruned(m, todayKey) && Pruned(m, todayKey)[k] == m[k]
  {
  }

  /** The clean-up loop over `Object.keys(shownToday)`, in whatever order the keys come. */
  method PruneShown(m: ShownMap, todayKey: string) returns (cleaned: ShownMap)
    ensures cleaned == Pruned(m, todayKey)
  {
    cleaned := map[];
    var pending := m.Keys;
    while pending != {}
      invariant pending <= m.Keys
      invariant forall k :: k in cleaned <==> k in m && k !in pending && StartsWith(k, todayKey)
      invariant forall k :: k in cleaned ==> cleaned[k] == m[k]
      decreases pending
    {
      var k :| k in pending;
      if StartsWith(k, todayKey) {
        cleaned := cleaned[k := m[k]];
      }
      pending := pending - {k};
    }
  }

  /** `m` with `key(b) := true` written for each birthday of `bs` in turn. */
  function Marked(m: ShownMap, todayKey: string, bs: seq<Birthday>): (r: ShownMap)
    ensures m.Keys <= r.Keys
    ensures forall k :: k in r && k !in m ==> r[k]
    decreases |bs|
  {
    if bs == [] then m
    else Marked(m, todayKey, bs[..|bs| - 1])[Key(todayKey, EntityId(bs[|bs| - 1])) := true]
  }

  function MarkedKeys(todayKey: string, bs: seq<Birthday>): set<string>
  {
    set b | b in bs :: Key(todayKey, EntityId(b))
  }

  /** The marking loop over today's birthdays. */
  method MarkShown(cleaned: ShownMap, todayKey: string, bs: seq<Birthday>) returns (m: ShownMap)
    ensures m == Marked(cleaned, todayKey, bs)
  {
    m := cleaned;
    var i := 0;
    while i < |bs|
      invariant 0 <= i <= |bs|
      invariant m == Marked(cleaned, todayKey, bs[..i])
    {
      assert bs[..i + 1][..i] == bs[..i];
      m := m[Key(todayKey, EntityId(bs[i])) := true];
      i := i + 1;
    }
    assert bs[..i] == bs;
  }

  /** One run of `checkBirthdaysToday` over `bs`: `fired` are the birthdays falling today and
      `after` is `before` pruned to today and marked for them. */
  predicate DailyCheck(before: ShownMap, after: ShownMap, todayKey: string, bs: seq<Birthday>,
                       today: Date, fired: seq<Birthday>)
  {
    fired == TodaysBirthdays(bs, today) && after == Marked(Pruned(before, todayKey), todayKey, fired)
  }

  /** Marking adds exactly the birthdays' keys and leaves every other entry as it was. */
  lemma {:induction false} MarkedFacts(m: ShownMap, todayKey: string, bs: seq<Birthday>)
    ensures Marked(m, todayKey, bs).Keys == m.Keys + MarkedKeys(todayKey, bs)
    ensures forall k :: k in m && k !in MarkedKeys(todayKey, bs) ==> Marked(m, todayKey, bs)[k] == m[k]
    decreases |bs|
  {
    if bs != [] {
      var init, last := bs[..|bs| - 1], bs[|bs| - 1];
      MarkedFacts(m, todayKey, init);
      forall b | b in bs
        ensures b == last || b in init
      {
        var i :| 0 <= i < |bs| && bs[i] == b;
        if i < |bs| - 1 {
          assert init[i] == b;
        }
      }
      assert bs == init + [last];
      assert MarkedKeys(todayKey, bs) == MarkedKeys(todayKey, init) + {Key(todayKey, EntityId(last))};
    }
  }

  /** After marking, the key of every birthday marked is present and true. */
  lemma {:induction false} MarkedAreTrue(m: ShownMap, todayKey: string, bs: seq<Birthday>)
    ensures forall b :: b in bs ==> Key(todayKey, EntityId(b)) in Marked(m, todayKey, bs)
                                    && Marked(m, todayKey, bs)[Key(todayKey, EntityId(b))]
    decreases |bs|
  {
    if bs != [] {
      var init, last := bs[..|bs| - 1], bs[|bs| - 1];
      MarkedAreTrue(m, todayKey, init);
      forall b | b in bs
        ensures b == last || b in init
      {
        var i :| 0 <= i < |bs| && bs[i] == b;
        if i < |bs| - 1 {
          assert init[i] == b;
        }
      }
    }
  }

  /** The table written by `checkBirthdaysToday`: pruned to today, then marked for today's
      birthdays. Every key in it belongs to today, every earlier entry of today survives unless
      it is re-marked, and each birthday falling today has its key set to true. */
  lemma {:induction false} DailyTableFacts(m: ShownMap, todayKey: string, bs: seq<Birthday>, today: Date)
    ensures var r := Marked(Pruned(m, todayKey), todayKey, TodaysBirthdays(bs, today));
      && (forall k :: k in r ==> StartsWith(k, todayKey))
      && (forall k :: k in m && StartsWith(k, todayKey) ==> k in r && (r[k] == m[k] || r[k]))
      && (forall b :: b in bs && IsBirthdayToday(b, today)
                     ==> Key(todayKey, EntityId(b)) in r && r[Key(todayKey, EntityId(b))])
  {
    var p := Pruned(m, todayKey);
    var t := TodaysBirthdays(bs, today);
    MarkedFacts(p, todayKey, t);
    MarkedAreTrue(p, todayKey, t);
    PrunedFacts(m, todayKey);
    forall b | b in bs && IsBirthdayToday(b, today)
      ensures Key(todayKey, EntityId(b)) in MarkedKeys(todayKey, t)
    {
      assert b in t;
    }
  }

  /** `checkAndSendUpdatedBirthdayNotification`'s table update: when the edited birthday falls
      today its one key is deleted; otherwise nothing changes. */
  function ClearedForEdit(m: ShownMap, todayKey: string, b: Birthday, today: Date): (r: ShownMap)
    ensures r.Keys <= m.Keys && |m.Keys - r.Keys| <= 1
    ensures forall k :: k in r ==> r[k] == m[k]
  {
    if IsBirthdayToday(b, today) then m - {Key(todayKey, EntityId(b))} else m
  }

  /** The edit clears only the edited birthday's key for today, and only when it falls today. */
  lemma ClearedForEditFacts(m: ShownMap, todayKey: string, b: Birthday, today: Date)
    ensures var r := ClearedForEdit(m, todayKey, b, today);
      && (IsBirthdayToday(b, today) ==> Key(todayKey, EntityId(b)) !in r)
      && (!IsBirthdayToday(b, today) ==> r == m)
      && r.Keys <= m.Keys
      && forall k :: k in m && k != Key(todayKey, EntityId(b)) ==> k in r && r[k] == m[k]
  {
  }
}
