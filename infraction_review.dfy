/** The review page of admin/infraction_review.php: the POST resolver that applies a
    review to a past event (plain review, unlock or shorten, with an optional strike
    reset), and the two review queues it lists. */
module InfractionReview {
  import opened Common
  import opened Privileges
  import opened Infractions

  // ---------------------------------------------------------------- the resolver

  /** The POSTed form after the page's casts: `keep_minutes` as given (clamped below),
      `reset_strike` as whether the field is present. */
  datatype ReviewPost = ReviewPost(eventId: int, action: string, note: string, keepMinutes: int, resetStrike: bool)

  /** The resolution the page carries out: `unlock` and `shorten` after trimming,
      anything else a plain review. */
  function PageAction(raw: string): (a: ReviewAction)
    ensures a == Unlock <==> Trim(raw) == "unlock"
    ensures a == Shorten <==> Trim(raw) == "shorten"
    ensures a == ReviewOnly <==> Trim(raw) != "unlock" && Trim(raw) != "shorten"
  {
    var t := Trim(raw);
    if t == "unlock" then Unlock else if t == "shorten" then Shorten else ReviewOnly
  }

  /** The expiry a shortening aims at: now plus the kept minutes, never before now. */
  function ShortenTarget(now: int, keepMinutes: int): (t: int)
    ensures t >= now
    ensures keepMinutes >= 0 ==> t == now + keepMinutes * 60
    ensures keepMinutes < 0 ==> t == now
  {
    now + Max(0, keepMinutes) * 60
  }

  /** Shortening keeps a category's current expiry when it is set and already ends
      before the target. */
  predicate Keeps(cur: Option<int>, target: int)
  {
    0 < ParseUntil(cur) < target
  }

  /** The expiry a shortening leaves on a blocked category. */
  function Shortened(cur: Option<int>, target: int): (r: Option<int>)
    ensures r.Some?
    ensures Keeps(cur, target) ==> r == cur
    ensures !Keeps(cur, target) ==> r == Some(target)
  {
    if Keeps(cur, target) then cur else Some(target)
  }

  /** Shortening never lengthens a lock that has an expiry: the result is the earlier of
      the current expiry and the target, and never after the target. */
  lemma ShortenNeverExtends(cur: Option<int>, target: int)
    ensures Shortened(cur, target).value <= target
    ensures ParseUntil(cur) > 0 ==> Shortened(cur, target).value == Min(ParseUntil(cur), target)
    ensures ParseUntil(cur) > 0 ==> Shortened(cur, target).value <= ParseUntil(cur)
  {
  }

  /** A blocked category with no stored expiry is locked by a shortening: the target
      becomes its expiry even though it had none. */
  lemma ShortenCreatesLock(target: int)
    ensures Shortened(None, target) == Some(target)
    ensures WithLockUntil(DefaultRow, Phone, Shortened(None, target)).locked.Get(Phone) == 1
  {
  }

  /** The expiry writes of a review of an event that blocked `blocks`, on the kid's row
      `row` as read before the loop. */
  function ReviewWrites(row: PrivRow, blocks: Triple<int>, a: ReviewAction, target: int): (w: Writes)
    ensures forall c :: w.Get(c).Some? <==>
      blocks.Get(c) == 1 && (a == Unlock || (a == Shorten && !Keeps(row.until.Get(c), target)))
    ensures forall c :: w.Get(c).Some? ==> w.Get(c).value == (if a == Unlock then None else Some(target))
  {
    var wc := (c: Category) =>
      if blocks.Get(c) != 1 then None
      else if a == Unlock then Some(None)
      else if a == Shorten && !Keeps(row.until.Get(c), target) then Some(Some(target))
      else None;
    Triple(wc(Phone), wc(Games), wc(Other))
  }

  /** The `resolved_until` record after visiting the first `i` categories: for an unlock
      or a shortening, every blocked category with the expiry it is left with. */
  function ResolvedUntil(row: PrivRow, blocks: Triple<int>, a: ReviewAction, target: int, i: int): (m: map<Category, Option<int>>)
    ensures forall c :: c in m <==> CatIndex(c) < i && blocks.Get(c) == 1 && a != ReviewOnly
    ensures forall c :: c in m ==> m[c] == (if a == Unlock then None else Shortened(row.until.Get(c), target))
  {
    map c | c in Categories && CatIndex(c) < i && blocks.Get(c) == 1 && a != ReviewOnly ::
      if a == Unlock then None else Shortened(row.until.Get(c), target)
  }

  /** The table a review leaves: a shortening first ensures the kid's row, then the writes
      are stored. */
  function ReviewedRows(rows: map<int, PrivRow>, kid: int, blocks: Triple<int>, a: ReviewAction, target: int): map<int, PrivRow>
  {
    var base := if a == Shorten then Ensured(rows, kid) else rows;
    WritesApplied(base, kid, ReviewWrites(RowOf(rows, kid), blocks, a, target), 3)
  }

  /** The recorded resolution matches the state the review leaves: every category in the
      record holds exactly the recorded expiry, locked iff it has one, except that a kept
      expiry of a shortening leaves the lock flag as it was; every category not in the
      record, and every other kid, is untouched. */
  lemma {:induction false} ResolvedMatchesRows(rows: map<int, PrivRow>, kid: int, blocks: Triple<int>, a: ReviewAction, target: int)
    ensures var r := RowOf(ReviewedRows(rows, kid, blocks, a, target), kid);
      var m := ResolvedUntil(RowOf(rows, kid), blocks, a, target, 3);
      var r0 := RowOf(rows, kid);
      r.bank == r0.bank &&
      (forall c :: c in m ==> r.until.Get(c) == m[c]) &&
      (forall c :: c in m && !(a == Shorten && Keeps(r0.until.Get(c), target)) ==> r.locked.Get(c) == (if m[c].Some? then 1 else 0)) &&
      (forall c :: c in m && a == Shorten && Keeps(r0.until.Get(c), target) ==> r.locked.Get(c) == r0.locked.Get(c)) &&
      (forall c :: c !in m ==> r.until.Get(c) == r0.until.Get(c) && r.locked.Get(c) == r0.locked.Get(c))
    ensures forall k :: k != kid ==> RowOf(ReviewedRows(rows, kid, blocks, a, target), k) == RowOf(rows, k)
  {
    var base := if a == Shorten then Ensured(rows, kid) else rows;
    EnsuredSpec(rows, kid);
    assert forall k :: RowOf(base, k) == RowOf(rows, k);
    WritesAppliedSpec(base, kid, ReviewWrites(RowOf(rows, kid), blocks, a, target));
  }

  /** A plain review changes no lock. */
  lemma ReviewOnlyKeepsRows(rows: map<int, PrivRow>, kid: int, blocks: Triple<int>, target: int)
    ensures ReviewedRows(rows, kid, blocks, ReviewOnly, target) == rows
  {
    var w := ReviewWrites(RowOf(rows, kid), blocks, ReviewOnly, target);
    assert !AnyWrite(Upto(w, 3));
  }

  /** An unlock clears every category the event blocked. */
  lemma UnlockClears(rows: map<int, PrivRow>, kid: int, blocks: Triple<int>, target: int, c: Category)
    requires blocks.Get(c) == 1
    ensures RowOf(ReviewedRows(rows, kid, blocks, Unlock, target), kid).locked.Get(c) == 0
    ensures RowOf(ReviewedRows(rows, kid, blocks, Unlock, target), kid).until.Get(c) == None
  {
    ResolvedMatchesRows(rows, kid, blocks, Unlock, target);
  }

  /** The entry of `resolved_until` for one category: none for a plain review or an
      unblocked category, NULL for an unlock, the shortened expiry otherwise. */
  function ResolvedEntry(cur: Option<int>, blocked: bool, a: ReviewAction, target: int): Option<Option<int>>
  {
    if blocked && a != ReviewOnly then Some(if a == Unlock then None else Shortened(cur, target)) else None
  }

  /** One pass of the resolver's loops for category `c`, whose expiry read before the loop
      is `pv.until.Get(c)`. */
  method ResolveCategory(priv: PrivilegeStore, kid: int, c: Category, pv: PrivRow, blocks: Triple<int>,
                         a: ReviewAction, target: int) returns (entry: Option<Option<int>>)
    modifies priv
    ensures entry == ResolvedEntry(pv.until.Get(c), blocks.Get(c) == 1, a, target)
    ensures var wc := ReviewWrites(pv, blocks, a, target).Get(c);
      priv.rows == (if wc.Some? then old(priv.rows)[kid := WithLockUntil(RowOf(old(priv.rows), kid), c, wc.value)]
                    else old(priv.rows))
  {
    entry := None;
    if blocks.Get(c) == 1 {
      if a == Unlock {
        var _ := priv.SetLockUntil(kid, c, None);
        entry := Some(None);
      } else if a == Shorten {
        var cur := pv.until.Get(c);
        if Keeps(cur, target) {
          entry := Some(cur);
        } else {
          var _ := priv.SetLockUntil(kid, c, Some(target));
          entry := Some(Some(target));
        }
      }
    }
  }

  /** One step of the resolver's loops on the record: visiting `Categories[i]` adds its entry, if any. */
  lemma ResolvedStep(row: PrivRow, blocks: Triple<int>, a: ReviewAction, target: int, i: nat)
    requires i < 3
    ensures var c := Categories[i];
      var e := ResolvedEntry(row.until.Get(c), blocks.Get(c) == 1, a, target);
      ResolvedUntil(row, blocks, a, target, i + 1) ==
        (if e.Some? then ResolvedUntil(row, blocks, a, target, i)[c := e.value] else ResolvedUntil(row, blocks, a, target, i))
  {
  }

  /** The loop over the categories, for the kid's row `pv` as read before it. */
  method ResolveLoop(priv: PrivilegeStore, kid: int, pv: PrivRow, blocks: Triple<int>, a: ReviewAction, target: int)
    returns (resolved: map<Category, Option<int>>)
    modifies priv
    ensures priv.rows == WritesApplied(old(priv.rows), kid, ReviewWrites(pv, blocks, a, target), 3)
    ensures resolved == ResolvedUntil(pv, blocks, a, target, 3)
  {
    resolved := map[];
    ghost var rows0 := priv.rows;
    ghost var w := ReviewWrites(pv, blocks, a, target);
    var i := 0;
    while i < |Categories|
      invariant 0 <= i <= |Categories|
      invariant priv.rows == WritesApplied(rows0, kid, w, i)
      invariant resolved == ResolvedUntil(pv, blocks, a, target, i)
    {
      var c := Categories[i];
      WritesStep(rows0, kid, w, i);
      ResolvedStep(pv, blocks, a, target, i);
      var entry := ResolveCategory(priv, kid, c, pv, blocks, a, target);
      if entry.Some? {
        resolved := resolved[c := entry.value];
      }
      i := i + 1;
    }
  }

  /** The per-category loops of the resolver (admin/infraction_review.php:54-84); a
      shortening reads the kid's row through `gb2_priv_get_for_kid` first. */
  method ResolveLocks(priv: PrivilegeStore, kid: int, blocks: Triple<int>, a: ReviewAction, target: int)
    returns (resolved: map<Category, Option<int>>)
    modifies priv
    ensures priv.rows == ReviewedRows(old(priv.rows), kid, blocks, a, target)
    ensures resolved == ResolvedUntil(RowOf(old(priv.rows), kid), blocks, a, target, 3)
  {
    var pv := RowOf(priv.rows, kid);
    if a == Shorten {
      pv := priv.GetForKid(kid);
    }
    resolved := ResolveLoop(priv, kid, pv, blocks, a, target);
  }

  /** Whether the event exists together with its definition and kid (the page's join). */
  predicate Found(events: map<int, Event>, defs: map<int, DefRow>, kids: set<int>, eventId: int)
  {
    eventId in events && events[eventId].defId in defs && events[eventId].kid in kids
  }

  /** The audit entries a review writes. */
  function ReviewAudit(resetStrike: bool): seq<AuditEntry>
  {
    (if resetStrike then [AuditEntry("admin", 0, "infraction.strike_reset")] else []) + [AuditEntry("admin", 0, "infraction.review")]
  }

  /** The writes of the POST handler once the event has been found, for the resolution
      `a`, the trimmed note and the shortening target. */
  method ResolveFound(db: InfractionDb, priv: PrivilegeStore, eventId: int, ev: Event, a: ReviewAction,
                      note: string, target: int, resetStrike: bool, now: int)
    modifies db`strikes, db`events, db`audit, priv
    ensures priv.rows == ReviewedRows(old(priv.rows), ev.kid, ev.blocks, a, target)
    ensures db.strikes == (if resetStrike then old(db.strikes)[(ev.kid, ev.defId) := 0] else old(db.strikes))
    ensures db.audit == old(db.audit) + ReviewAudit(resetStrike)
    ensures eventId in old(db.events) ==>
      db.events == old(db.events)[eventId := old(db.events)[eventId].(review :=
        Some(Review(now, "admin", 0, note, a, ResolvedUntil(RowOf(old(priv.rows), ev.kid), ev.blocks, a, target, 3))))]
  {
    var resolved := ResolveLocks(priv, ev.kid, ev.blocks, a, target);
    if resetStrike {
      db.ResetStrikeForEvent(ev.kid, ev.defId);
    }
    NormaliseName(a);
    db.MarkEventReviewed(eventId, "admin", 0, note, ReviewActionName(a), resolved, now);
  }

  /** The POST handler. A missing id or an event the join does not find fails before any
      write; otherwise the locks are resolved, the strike optionally reset and the event
      marked reviewed, one write after another with no transaction around them, and the
      page redirects. An already reviewed event is reviewed again. */
  method Resolve(db: InfractionDb, priv: PrivilegeStore, post: ReviewPost, now: int) returns (r: Result<string>)
    modifies db`strikes, db`events, db`audit, priv
    ensures post.eventId <= 0 ==> r == Err("Missing event id.")
    ensures post.eventId > 0 && !Found(old(db.events), db.defs, db.kids, post.eventId) ==>
      r == Err("Review failed: Event not found.")
    ensures r.Err? ==> db.strikes == old(db.strikes) && db.events == old(db.events) &&
                       db.audit == old(db.audit) && priv.rows == old(priv.rows)
    ensures r.Ok? <==> post.eventId > 0 && Found(old(db.events), db.defs, db.kids, post.eventId)
    ensures r.Ok? ==>
      var ev := old(db.events)[post.eventId];
      var a := PageAction(post.action);
      var target := ShortenTarget(now, post.keepMinutes);
      && r.value == "/admin/infraction_review.php?ok=Reviewed"
      && priv.rows == ReviewedRows(old(priv.rows), ev.kid, ev.blocks, a, target)
      && db.strikes == (if post.resetStrike then old(db.strikes)[(ev.kid, ev.defId) := 0] else old(db.strikes))
      && db.events == old(db.events)[post.eventId := ev.(review :=
           Some(Review(now, "admin", 0, Trim(post.note), a, ResolvedUntil(RowOf(old(priv.rows), ev.kid), ev.blocks, a, target, 3))))]
      && db.audit == old(db.audit) + ReviewAudit(post.resetStrike)
  {
    if post.eventId <= 0 {
      return Err("Missing event id.");
    }
    if !(post.eventId in db.events && db.events[post.eventId].defId in db.defs && db.events[post.eventId].kid in db.kids) {
      return Err("Review failed: Event not found.");
    }
    ResolveFound(db, priv, post.eventId, db.events[post.eventId], PageAction(post.action), Trim(post.note),
                 ShortenTarget(now, post.keepMinutes), post.resetStrike, now);
    r := Ok("/admin/infraction_review.php?ok=Reviewed");
  }

  /** Nothing stops a second review: resolving an event whose review is already recorded
      succeeds and overwrites the earlier record. */
  lemma ReReviewOverwrites(events: map<int, Event>, defs: map<int, DefRow>, kids: set<int>, eventId: int, rv: Review)
    requires Found(events, defs, kids, eventId) && events[eventId].review.Some?
    ensures Found(events[eventId := events[eventId].(review := Some(rv))], defs, kids, eventId)
  {
  }

  // ---------------------------------------------------------------- the queues

  /** The two lists of the page: reviews due now, and reviews due within a week. */
  datatype Queue = DueNow | Upcoming

  /** Whether an event belongs on a list, comparing its review day with today's day and
      the day a week from now. */
  predicate InQueue(q: Queue, ev: Event, now: int)
  {
    ev.reviewOn.Some? && ev.review.None? &&
    match q
    case DueNow => ev.reviewOn.value <= DayOf(now)
    case Upcoming => DayOf(now) < ev.reviewOn.value <= DayOf(now + 7 * 86400)
  }

  /** A review can be in at most one of the lists. */
  lemma QueuesDisjoint(ev: Event, now: int)
    ensures !(InQueue(DueNow, ev, now) && InQueue(Upcoming, ev, now))
  {
  }

  function ReviewKey(ev: Event): int
  {
    if ev.reviewOn.Some? then ev.reviewOn.value else 0
  }

  /** `ORDER BY review_on ASC, ts DESC`: `x` may come before `y`. */
  predicate OnOrBefore(x: (int, Event), y: (int, Event))
  {
    ReviewKey(x.1) < ReviewKey(y.1) || (ReviewKey(x.1) == ReviewKey(y.1) && x.1.ts >= y.1.ts)
  }

  predicate Sorted(s: seq<(int, Event)>)
  {
    forall i, j :: 0 <= i < j < |s| ==> OnOrBefore(s[i], s[j])
  }

  /** The joined rows that belong on a list, in scan order. */
  function Selected(rows: seq<(int, Event)>, q: Queue, now: int): (r: seq<(int, Event)>)
    ensures |r| <= |rows|
  {
    if rows == [] then []
    else (if InQueue(q, rows[0].1, now) then [rows[0]] else []) + Selected(rows[1..], q, now)
  }

  lemma {:induction false} SelectedSpec(rows: seq<(int, Event)>, q: Queue, now: int)
    ensures forall x :: x in Selected(rows, q, now) <==> x in rows && InQueue(q, x.1, now)
    ensures forall x :: x in multiset(Selected(rows, q, now)) ==> InQueue(q, x.1, now)
  {
    if rows != [] {
      SelectedSpec(rows[1..], q, now);
      assert rows == [rows[0]] + rows[1..];
    }
  }

  function Insert(x: (int, Event), s: seq<(int, Event)>): seq<(int, Event)>
  {
    if s == [] then [x]
    else if OnOrBefore(x, s[0]) then [x] + s
    else [s[0]] + Insert(x, s[1..])
  }

  /** `ORDER BY` compares every pair of rows. */
  lemma OnOrBeforeTotal(x: (int, Event), y: (int, Event))
    ensures OnOrBefore(x, y) || OnOrBefore(y, x)
  {
  }

  /** A row that may come before every row of a sorted list may head it. */
  lemma ConsSorted(b: (int, Event), t: seq<(int, Event)>)
    requires Sorted(t)
    requires forall y :: y in t ==> OnOrBefore(b, y)
    ensures Sorted([b] + t)
  {
    var u := [b] + t;
    forall i, j | 0 <= i < j < |u| ensures OnOrBefore(u[i], u[j]) {
      assert u[j] == t[j - 1];
      if i > 0 {
        assert u[i] == t[i - 1];
      }
    }
  }

  lemma {:induction false} InsertSpec(x: (int, Event), s: seq<(int, Event)>)
    requires Sorted(s)
    ensures multiset(Insert(x, s)) == multiset(s) + multiset{x}
    ensures Sorted(Insert(x, s))
  {
    if s == [] {
    } else if OnOrBefore(x, s[0]) {
      forall y | y in s ensures OnOrBefore(x, y) {
        var k :| 0 <= k < |s| && s[k] == y;
      }
      ConsSorted(x, s);
    } else {
      OnOrBeforeTotal(x, s[0]);
      InsertSpec(x, s[1..]);
      assert s == [s[0]] + s[1..];
      var t := Insert(x, s[1..]);
      forall y | y in t ensures OnOrBefore(s[0], y) {
        assert y in multiset(t);
        if y != x {
          assert y in multiset(s[1..]);
          var k :| 0 <= k < |s[1..]| && s[1..][k] == y;
          assert s[k + 1] == y;
        }
      }
      ConsSorted(s[0], t);
    }
  }

  /** The order the query returns the selected rows in. */
  function SortRows(s: seq<(int, Event)>): seq<(int, Event)>
  {
    if s == [] then [] else Insert(s[0], SortRows(s[1..]))
  }

  lemma {:induction false} SortRowsSpec(s: seq<(int, Event)>)
    ensures Sorted(SortRows(s))
    ensures multiset(SortRows(s)) == multiset(s)
    ensures |SortRows(s)| == |s|
  {
    if s != [] {
      SortRowsSpec(s[1..]);
      InsertSpec(s[0], SortRows(s[1..]));
      assert s == [s[0]] + s[1..];
      assert |multiset(SortRows(s))| == |multiset(s)|;
    }
  }

  /** The page's cap on each list. */
  const QueueLimit := 200

  /** A list as the page shows it: the joined rows that belong on it, ordered, at most 200. */
  function QueueRows(rows: seq<(int, Event)>, q: Queue, now: int): seq<(int, Event)>
  {
    var sorted := SortRows(Selected(rows, q, now));
    if |sorted| <= QueueLimit then sorted else sorted[..QueueLimit]
  }

  /** Each list holds only rows that belong on it, in order, as many as belong up to the
      cap, and when the cap cuts the list every row left out comes no earlier than the
      last row shown. */
  lemma QueueRowsSpec(rows: seq<(int, Event)>, q: Queue, now: int)
    ensures var r := QueueRows(rows, q, now);
      && Sorted(r)
      && |r| == Min(QueueLimit, |Selected(rows, q, now)|)
      && (forall x :: x in r ==> x in rows && InQueue(q, x.1, now))
      && (|Selected(rows, q, now)| <= QueueLimit ==> multiset(r) == multiset(Selected(rows, q, now)))
      && (forall x :: x in rows && InQueue(q, x.1, now) && x !in r ==>
            |r| == QueueLimit && OnOrBefore(r[QueueLimit - 1], x))
  {
    var sel := Selected(rows, q, now);
    var sorted := SortRows(sel);
    SortRowsSpec(sel);
    SelectedSpec(rows, q, now);
    var r := QueueRows(rows, q, now);
    forall x | x in r ensures x in rows && InQueue(q, x.1, now) {
      assert x in sorted;
      assert x in multiset(sel);
    }
    forall x | x in rows && InQueue(q, x.1, now) && x !in r
      ensures |r| == QueueLimit && OnOrBefore(r[QueueLimit - 1], x)
    {
      assert x in multiset(sorted);
      var k :| 0 <= k < |sorted| && sorted[k] == x;
      assert k >= QueueLimit;
    }
  }
}
