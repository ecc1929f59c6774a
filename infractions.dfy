/** The infraction-consequence engine of lib/infractions.php: strike counters per
    (kid, definition), the ladder/default day rule, the review-day rule, the
    set/add composition of lock expiries, the read-only preview, the transactional
    apply and the review record. */
module Infractions {
  import opened Common
  import opened Privileges

  /** Lock composition mode of a definition. */
  datatype Mode = Set | Add

  function ModeName(m: Mode): string
  {
    match m
    case Set => "set"
    case Add => "add"
  }

  /** The engine's mode rule: a stored mode other than `set` and `add` is treated as `set`. */
  function EngineMode(raw: string): (m: Mode)
    ensures m == Add <==> raw == "add"
    ensures raw == ModeName(m) || (raw != "set" && raw != "add")
  {
    if raw != "set" && raw != "add" then Set
    else if raw == "add" then Add
    else Set
  }

  /** A row of `infraction_defs`. `ladder` is `ladder_json` decoded with each entry
      `(int)`-cast (an invalid document decodes to no entries); `blocks` is `blocks_json` decoded. */
  datatype DefRow = DefRow(code: string, title: string, active: bool, mode: string, days: int,
                           ladder: seq<int>, blocks: Decoded<map<string, int>>, repairs: seq<string>,
                           reviewDays: int, sortOrder: int, createdAt: int)

  /** Looks up a key of a decoded JSON object, `(int)($v[$k] ?? 0)`. */
  function IntAt(m: map<string, int>, k: string): int
  {
    if k in m then m[k] else 0
  }

  /** `gb2_inf_decode_blocks`: exactly the three category flags, all 0 when the document is not an array. */
  function DecodeBlocks(b: Decoded<map<string, int>>): (t: Triple<int>)
    ensures b.NotArray? ==> t == Zeros
    ensures b.Arr? ==> forall c :: t.Get(c) == (if CatKey(c) in b.value then b.value[CatKey(c)] else 0)
  {
    match b
    case NotArray => Zeros
    case Arr(m) => Triple(IntAt(m, "phone"), IntAt(m, "games"), IntAt(m, "other"))
  }

  // ---------------------------------------------------------------- strikes

  /** `gb2_inf_get_strikes`: the stored count, 0 when no row exists. */
  function StrikeCount(strikes: map<(int, int), int>, kid: int, defId: int): (n: int)
    ensures (kid, defId) !in strikes ==> n == 0
    ensures (kid, defId) in strikes ==> n == strikes[(kid, defId)]
  {
    if (kid, defId) in strikes then strikes[(kid, defId)] else 0
  }

  // ---------------------------------------------------------------- days

  /** The index `gb2_inf_compute_days` picks: strike n takes rung n, clamped to the ladder. */
  function LadderIndex(strikeAfter: int, n: nat): (i: nat)
    requires n > 0
    ensures i < n
  {
    var idx := Max(0, strikeAfter - 1);
    if idx >= n then n - 1 else idx
  }

  /** `gb2_inf_compute_days`: the rung for this strike when the ladder has positive
      entries, otherwise the definition's default days, never negative. */
  function ComputeDays(def: DefRow, strikeAfter: int): (d: int)
    ensures d >= 0
    ensures Positives(def.ladder) == [] ==> d == Max(0, def.days)
    ensures Positives(def.ladder) != [] ==> d > 0 && d in def.ladder
  {
    var rungs := Positives(def.ladder);
    PositivesSpec(def.ladder);
    if rungs != [] then rungs[LadderIndex(strikeAfter, |rungs|)] else Max(0, def.days)
  }

  /** Escalation: strikes 1..n take rungs 1..n, and every later strike stays on the last rung. */
  lemma LadderEscalation(def: DefRow, strikeAfter: int)
    requires Positives(def.ladder) != []
    ensures var rungs := Positives(def.ladder);
      (1 <= strikeAfter <= |rungs| ==> ComputeDays(def, strikeAfter) == rungs[strikeAfter - 1]) &&
      (strikeAfter >= |rungs| ==> ComputeDays(def, strikeAfter) == rungs[|rungs| - 1]) &&
      (strikeAfter <= 1 ==> ComputeDays(def, strikeAfter) == rungs[0])
  {
  }

  /** The loop of `gb2_inf_compute_days` that collects the usable rungs. */
  method LadderValues(ladder: seq<int>) returns (vals: seq<int>)
    ensures vals == Positives(ladder)
    ensures forall i :: 0 <= i < |vals| ==> vals[i] > 0
  {
    vals := [];
    var i := 0;
    while i < |ladder|
      invariant 0 <= i <= |ladder|
      invariant vals == Positives(ladder[..i])
    {
      PositivesAppend(ladder[..i], ladder[i]);
      assert ladder[..i + 1] == ladder[..i] + [ladder[i]];
      if ladder[i] > 0 {
        vals := vals + [ladder[i]];
      }
      i := i + 1;
    }
    assert ladder[..i] == ladder;
    PositivesSpec(ladder);
  }

  /** `ceil(d / 2)` for a positive day count. */
  function CeilHalf(d: int): int requires d > 0 { (d + 1) / 2 }

  /** `gb2_inf_compute_review_days`: an explicit positive review period wins; otherwise
      none for a zero-day consequence, and half the days rounded up (at least 1) otherwise. */
  function ReviewDays(explicit: int, daysApplied: int): (r: int)
    ensures r >= 0
    ensures explicit > 0 ==> r == explicit
    ensures explicit <= 0 && daysApplied <= 0 ==> r == 0
    ensures explicit <= 0 && daysApplied > 0 ==> r >= 1 && daysApplied <= 2 * r <= daysApplied + 1
    ensures r == 0 <==> explicit <= 0 && daysApplied <= 0
  {
    if explicit > 0 then explicit
    else if daysApplied <= 0 then 0
    else Max(1, CeilHalf(daysApplied))
  }

  /** The calendar day (days since 1970-01-01, UTC) of a timestamp, as `gmdate('Y-m-d')` names it. */
  function DayOf(t: int): int { t / 86400 }

  // ---------------------------------------------------------------- the plan

  /** What one application of a definition will do, before any expiry is composed. */
  datatype Plan = Plan(strikeBefore: int, strikeAfter: int, daysApplied: int, minutes: int,
                       mode: Mode, blocks: Triple<int>, reviewOn: Option<int>)

  /** The shared computation of `gb2_inf_preview` and `gb2_inf_apply` (lib/infractions.php:162-172, 223-235). */
  function MakePlan(def: DefRow, strikeBefore: int, now: int): (p: Plan)
    ensures p.strikeBefore == strikeBefore && p.strikeAfter == strikeBefore + 1
    ensures p.daysApplied == ComputeDays(def, strikeBefore + 1)
    ensures p.minutes == p.daysApplied * 1440 && p.minutes >= 0
    ensures p.mode == EngineMode(def.mode) && p.blocks == DecodeBlocks(def.blocks)
    ensures p.reviewOn.None? <==> ReviewDays(def.reviewDays, p.daysApplied) == 0
    ensures p.reviewOn.Some? ==> p.reviewOn.value == DayOf(now) + ReviewDays(def.reviewDays, p.daysApplied)
  {
    var days := ComputeDays(def, strikeBefore + 1);
    var rd := ReviewDays(def.reviewDays, days);
    Plan(strikeBefore, strikeBefore + 1, days, days * 1440, EngineMode(def.mode), DecodeBlocks(def.blocks),
         if rd > 0 then Some(DayOf(now + rd * 86400)) else None)
  }

  /** The new expiry of one category: `set` counts from now whatever the current expiry,
      `add` stacks onto the later of now and the current expiry. */
  function CatUntil(p: Plan, cur: Option<int>, now: int): (u: int)
    ensures p.mode == Set ==> u == now + p.minutes * 60
    ensures p.mode == Add ==> u == StackedUntil(now, cur, p.minutes)
    ensures u >= now + p.minutes * 60
  {
    match p.mode
    case Set => now + p.minutes * 60
    case Add => StackedUntil(now, cur, p.minutes)
  }

  /** A set-mode infraction replaces the current expiry: a longer standing lock is shortened. */
  lemma SetModeReplaces(p: Plan, cur: Option<int>, now: int)
    requires p.mode == Set && cur.Some? && cur.value > now + p.minutes * 60
    ensures CatUntil(p, cur, now) < cur.value
  {
  }

  /** The expiries the preview reports after visiting the first `i` categories: every
      blocked category, even for a zero-day consequence. */
  function PreviewComputed(row: PrivRow, p: Plan, now: int, i: int): (m: map<Category, int>)
    ensures forall c :: c in m <==> CatIndex(c) < i && p.blocks.Get(c) == 1
    ensures forall c :: c in m ==> m[c] == CatUntil(p, row.until.Get(c), now)
  {
    map c | c in Categories && CatIndex(c) < i && p.blocks.Get(c) == 1 :: CatUntil(p, row.until.Get(c), now)
  }

  /** The loop of `gb2_inf_preview` over the categories (lib/infractions.php:179-189). */
  method PreviewLoop(pv: PrivRow, p: Plan, now: int) returns (computed: map<Category, int>)
    ensures computed == PreviewComputed(pv, p, now, 3)
  {
    computed := map[];
    var i := 0;
    while i < |Categories|
      invariant 0 <= i <= |Categories|
      invariant computed == PreviewComputed(pv, p, now, i)
    {
      var c := Categories[i];
      if p.blocks.Get(c) == 1 {
        computed := computed[c := CatUntil(p, pv.until.Get(c), now)];
      }
      i := i + 1;
    }
  }

  /** Apply touches a category only when it is blocked and the duration is positive. */
  predicate Active(p: Plan, c: Category)
  {
    p.blocks.Get(c) == 1 && p.minutes > 0
  }

  /** The expiries apply has recorded after visiting the first `i` categories. */
  function AppliedComputed(row: PrivRow, p: Plan, now: int, i: int): (m: map<Category, int>)
    ensures forall c :: c in m <==> CatIndex(c) < i && Active(p, c)
    ensures forall c :: c in m ==> m[c] == CatUntil(p, row.until.Get(c), now)
  {
    map c | c in Categories && CatIndex(c) < i && Active(p, c) :: CatUntil(p, row.until.Get(c), now)
  }

  /** The expiry writes apply issues for the kid's row `row`: each active category is
      locked until its composed expiry. */
  function ApplyWrites(row: PrivRow, p: Plan, now: int): (w: Writes)
    ensures forall c :: w.Get(c).Some? <==> Active(p, c)
    ensures forall c :: Active(p, c) ==> w.Get(c).value == Some(CatUntil(p, row.until.Get(c), now))
  {
    var wc := (c: Category) => if Active(p, c) then Some(Some(CatUntil(p, row.until.Get(c), now))) else None;
    Triple(wc(Phone), wc(Games), wc(Other))
  }

  /** The privileges table after apply has visited the first `i` categories. */
  function AppliedRows(rows: map<int, PrivRow>, kid: int, p: Plan, now: int, i: int): map<int, PrivRow>
  {
    WritesApplied(rows, kid, ApplyWrites(RowOf(rows, kid), p, now), i)
  }

  /** What apply does to the kid's row: every active category is locked until its new
      expiry; every other category, the banks and every other kid stay as they were. */
  lemma AppliedRowsSpec(rows: map<int, PrivRow>, kid: int, p: Plan, now: int)
    ensures forall k :: k != kid ==> RowOf(AppliedRows(rows, kid, p, now, 3), k) == RowOf(rows, k)
    ensures var r := RowOf(AppliedRows(rows, kid, p, now, 3), kid);
      var r0 := RowOf(rows, kid);
      r.bank == r0.bank &&
      forall c :: (Active(p, c) ==> r.locked.Get(c) == 1 && r.until.Get(c) == Some(CatUntil(p, r0.until.Get(c), now))) &&
                  (!Active(p, c) ==> r.locked.Get(c) == r0.locked.Get(c) && r.until.Get(c) == r0.until.Get(c))
  {
    WritesAppliedSpec(rows, kid, ApplyWrites(RowOf(rows, kid), p, now));
  }

  /** Preview and apply agree: with a positive duration apply records exactly the
      expiries the preview showed; with a zero duration apply records none while the
      preview still lists every blocked category. */
  lemma PreviewMatchesApply(row: PrivRow, p: Plan, now: int)
    ensures p.minutes > 0 ==> AppliedComputed(row, p, now, 3) == PreviewComputed(row, p, now, 3)
    ensures p.minutes <= 0 ==> AppliedComputed(row, p, now, 3) == map[]
  {
    if p.minutes > 0 {
      assert forall c :: CatIndex(c) < 3;
    }
  }

  /** Locks one category as apply does: `set` stores now plus the duration, `add` stacks. */
  method LockOne(priv: PrivilegeStore, kid: int, p: Plan, now: int, c: Category) returns (u: int)
    modifies priv
    ensures u == CatUntil(p, RowOf(old(priv.rows), kid).until.Get(c), now)
    ensures priv.rows == old(priv.rows)[kid := WithLockUntil(RowOf(old(priv.rows), kid), c, Some(u))]
  {
    if p.mode == Set {
      var stored := priv.SetLockUntil(kid, c, Some(now + p.minutes * 60));
      u := stored.value;
    } else {
      u := priv.AddLockMinutes(kid, c, p.minutes, now);
    }
  }

  /** The loop of `gb2_inf_apply` over the categories (lib/infractions.php:245-255):
      skips a category that is not blocked or a duration that is not positive. */
  method LockBlocked(priv: PrivilegeStore, kid: int, p: Plan, now: int) returns (computed: map<Category, int>)
    modifies priv
    ensures computed == AppliedComputed(RowOf(old(priv.rows), kid), p, now, 3)
    ensures priv.rows == AppliedRows(old(priv.rows), kid, p, now, 3)
  {
    ghost var rows0 := priv.rows;
    ghost var w := ApplyWrites(RowOf(rows0, kid), p, now);
    computed := map[];
    var i := 0;
    while i < |Categories|
      invariant 0 <= i <= |Categories|
      invariant computed == AppliedComputed(RowOf(rows0, kid), p, now, i)
      invariant priv.rows == AppliedRows(rows0, kid, p, now, i)
    {
      var c := Categories[i];
      WritesStep(rows0, kid, w, i);
      if p.blocks.Get(c) == 1 && p.minutes > 0 {
        var u := LockOne(priv, kid, p, now, c);
        computed := computed[c := u];
      }
      i := i + 1;
    }
  }

  // ---------------------------------------------------------------- events

  datatype ReviewAction = ReviewOnly | Unlock | Shorten

  function ReviewActionName(a: ReviewAction): string
  {
    match a
    case ReviewOnly => "review_only"
    case Unlock => "unlock"
    case Shorten => "shorten"
  }

  /** The whitelist of `gb2_inf_mark_event_reviewed`: the trimmed action if known, otherwise `review_only`. */
  function NormaliseReviewAction(raw: string): (a: ReviewAction)
    ensures ReviewActionName(a) == Trim(raw) || (a == ReviewOnly && Trim(raw) !in {"unlock", "shorten"})
    ensures Trim(raw) == "unlock" ==> a == Unlock
    ensures Trim(raw) == "shorten" ==> a == Shorten
  {
    var t := Trim(raw);
    if t == "unlock" then Unlock else if t == "shorten" then Shorten else ReviewOnly
  }

  /** The whitelist keeps every action under its own name. */
  lemma NormaliseName(a: ReviewAction)
    ensures NormaliseReviewAction(ReviewActionName(a)) == a
  {
    TrimNoEdges(ReviewActionName(a));
  }

  /** The review columns of an event, filled by `gb2_inf_mark_event_reviewed`. */
  datatype Review = Review(at: int, actorType: string, actorId: int, note: string,
                           action: ReviewAction, resolvedUntil: map<Category, Option<int>>)

  /** A row of `infraction_events`. */
  datatype Event = Event(kid: int, defId: int, ts: int, actorType: string, actorId: int,
                         strikeBefore: int, strikeAfter: int, daysApplied: int, mode: Mode,
                         blocks: Triple<int>, computedUntil: map<Category, int>,
                         reviewOn: Option<int>, note: string, review: Option<Review>)

  /** What preview and apply return. */
  datatype Outcome = Outcome(strikeBefore: int, strikeAfter: int, daysApplied: int, mode: Mode,
                             blocks: Triple<int>, computedUntil: map<Category, int>, reviewOn: Option<int>)

  function OutcomeOf(p: Plan, computed: map<Category, int>): Outcome
  {
    Outcome(p.strikeBefore, p.strikeAfter, p.daysApplied, p.mode, p.blocks, computed, p.reviewOn)
  }

  /** The event apply records for a plan. */
  function EventOf(kid: int, defId: int, now: int, actorType: string, actorId: int, p: Plan,
                   computed: map<Category, int>, note: string): Event
  {
    Event(kid, defId, now, actorType, actorId, p.strikeBefore, p.strikeAfter, p.daysApplied, p.mode,
          p.blocks, computed, p.reviewOn, note, None)
  }

  /** The engine's tables: definitions, strike counters, events, the kids the review
      page joins against, and the audit log. */
  class InfractionDb {
    var defs: map<int, DefRow>
    var nextDefId: int
    var strikes: map<(int, int), int>
    var events: map<int, Event>
    var nextEventId: int
    var kids: set<int>
    var audit: seq<AuditEntry>

    /** Auto-increment ids are above every id in use. */
    ghost predicate Valid()
      reads this
    {
      nextEventId >= 1 && nextDefId >= 1 &&
      (forall id :: id in events ==> 0 < id < nextEventId) &&
      (forall id :: id in defs ==> 0 < id < nextDefId)
    }

    constructor ()
      ensures Valid()
      ensures defs == map[] && strikes == map[] && events == map[] && kids == {} && audit == []
    {
      defs, nextDefId, strikes, events, nextEventId, kids, audit := map[], 1, map[], map[], 1, {}, [];
    }

    /** `gb2_inf_get_strikes`. */
    method GetStrikes(kid: int, defId: int) returns (n: int)
      ensures n == StrikeCount(strikes, kid, defId)
      ensures (kid, defId) !in strikes ==> n == 0
    {
      n := if (kid, defId) in strikes then strikes[(kid, defId)] else 0;
    }

    /** `gb2_inf_set_strikes`: upsert of the counter. */
    method SetStrikes(kid: int, defId: int, count: int)
      modifies this`strikes
      ensures strikes == old(strikes)[(kid, defId) := count]
    {
      strikes := strikes[(kid, defId) := count];
    }

    /** `gb2_inf_reset_strike_for_event`: the counter becomes 0 and the reset is audited. */
    method ResetStrikeForEvent(kid: int, defId: int)
      modifies this`strikes, this`audit
      ensures strikes == old(strikes)[(kid, defId) := 0]
      ensures audit == old(audit) + [AuditEntry("admin", 0, "infraction.strike_reset")]
    {
      strikes := strikes[(kid, defId) := 0];
      audit := audit + [AuditEntry("admin", 0, "infraction.strike_reset")];
    }

    /** `gb2_inf_mark_event_reviewed`: fills the review columns of the event, if it exists,
        with the normalised action; the audit entry is written either way. Nothing stops
        an event from being reviewed again. */
    method MarkEventReviewed(eventId: int, actorType: string, actorId: int, note: string,
                             actionRaw: string, resolved: map<Category, Option<int>>, now: int)
      modifies this`events, this`audit
      ensures eventId in old(events) ==>
        events == old(events)[eventId := old(events)[eventId].(review :=
          Some(Review(now, actorType, actorId, note, NormaliseReviewAction(actionRaw), resolved)))]
      ensures eventId !in old(events) ==> events == old(events)
      ensures audit == old(audit) + [AuditEntry(actorType, actorId, "infraction.review")]
    {
      var action := NormaliseReviewAction(actionRaw);
      if eventId in events {
        events := events[eventId := events[eventId].(review := Some(Review(now, actorType, actorId, note, action, resolved)))];
      }
      audit := audit + [AuditEntry(actorType, actorId, "infraction.review")];
    }

    /** `gb2_inf_preview`: the outcome apply would produce, computed from the current
        counters and privileges. Its only write is the default privileges row that
        `gb2_priv_get_for_kid` inserts when the kid has none. */
    method Preview(priv: PrivilegeStore, kid: int, defId: int, now: int) returns (r: Result<Outcome>)
      modifies priv
      ensures r.Err? <==> defId !in defs
      ensures r.Err? ==> priv.rows == old(priv.rows)
      ensures r.Ok? ==> priv.rows == Ensured(old(priv.rows), kid)
      ensures r.Ok? ==>
        var p := MakePlan(defs[defId], StrikeCount(strikes, kid, defId), now);
        r.value == OutcomeOf(p, PreviewComputed(RowOf(old(priv.rows), kid), p, now, 3))
      ensures forall k :: RowOf(priv.rows, k) == RowOf(old(priv.rows), k)
    {
      if defId !in defs {
        return Err("Infraction not found");
      }
      var def := defs[defId];
      var strikeBefore := GetStrikes(kid, defId);
      var p := MakePlan(def, strikeBefore, now);
      var pv := priv.GetForKid(kid);
      EnsuredSpec(old(priv.rows), kid);
      var computed := PreviewLoop(pv, p, now);
      r := Ok(OutcomeOf(p, computed));
    }

    /** The event insert and audit entry of `gb2_inf_apply` (lib/infractions.php:258-288). */
    method RecordEvent(ev: Event)
      requires Valid()
      modifies this`events, this`nextEventId, this`audit
      ensures Valid()
      ensures nextEventId == old(nextEventId) + 1
      ensures events == old(events)[old(nextEventId) := ev]
      ensures audit == old(audit) + [AuditEntry(ev.actorType, ev.actorId, "infraction.apply")]
    {
      events := events[nextEventId := ev];
      nextEventId := nextEventId + 1;
      audit := audit + [AuditEntry(ev.actorType, ev.actorId, "infraction.apply")];
    }

    /** The transaction of `gb2_inf_apply` (lib/infractions.php:239-294) for a computed
        plan. `dbFails` stands for any failure inside the transaction, which rolls every
        write back. */
    method ApplyPlan(priv: PrivilegeStore, kid: int, defId: int, p: Plan, note: string, actorType: string,
                     actorId: int, now: int, dbFails: bool) returns (r: Result<Outcome>)
      requires Valid()
      modifies this`strikes, this`events, this`nextEventId, this`audit, priv
      ensures Valid()
      ensures r.Ok? <==> !dbFails
      ensures r.Err? ==> strikes == old(strikes) && events == old(events) && audit == old(audit) &&
                         nextEventId == old(nextEventId) && priv.rows == old(priv.rows)
      ensures r.Ok? ==>
        var computed := AppliedComputed(RowOf(old(priv.rows), kid), p, now, 3);
        && r.value == OutcomeOf(p, computed)
        && strikes == old(strikes)[(kid, defId) := p.strikeAfter]
        && priv.rows == AppliedRows(old(priv.rows), kid, p, now, 3)
        && nextEventId == old(nextEventId) + 1
        && events == old(events)[old(nextEventId) := EventOf(kid, defId, now, actorType, actorId, p, computed, note)]
        && audit == old(audit) + [AuditEntry(actorType, actorId, "infraction.apply")]
    {
      // beginTransaction: remember what a rollback restores
      var savedStrikes, savedEvents, savedNext, savedAudit, savedRows := strikes, events, nextEventId, audit, priv.rows;

      SetStrikes(kid, defId, p.strikeAfter);
      var computed := LockBlocked(priv, kid, p, now);
      RecordEvent(EventOf(kid, defId, now, actorType, actorId, p, computed, note));

      if dbFails {
        // rollBack and rethrow
        strikes, events, nextEventId, audit := savedStrikes, savedEvents, savedNext, savedAudit;
        priv.rows := savedRows;
        return Err("database error");
      }
      r := Ok(OutcomeOf(p, computed));
    }

    /** `gb2_inf_apply`: increments the strike, locks every blocked category for a
        positive duration, records the event and audits it, all in one transaction;
        the strike is read before the transaction opens. */
    method Apply(priv: PrivilegeStore, kid: int, defId: int, note: string, actorType: string,
                 actorId: int, now: int, dbFails: bool) returns (r: Result<Outcome>)
      requires Valid()
      modifies this`strikes, this`events, this`nextEventId, this`audit, priv
      ensures Valid()
      ensures r.Ok? <==> defId in defs && !dbFails
      ensures r.Err? ==> strikes == old(strikes) && events == old(events) && audit == old(audit) &&
                         nextEventId == old(nextEventId) && priv.rows == old(priv.rows)
      ensures r.Ok? ==>
        var p := MakePlan(defs[defId], StrikeCount(old(strikes), kid, defId), now);
        var computed := AppliedComputed(RowOf(old(priv.rows), kid), p, now, 3);
        && r.value == OutcomeOf(p, computed)
        && strikes == old(strikes)[(kid, defId) := p.strikeAfter]
        && priv.rows == AppliedRows(old(priv.rows), kid, p, now, 3)
        && nextEventId == old(nextEventId) + 1
        && events == old(events)[old(nextEventId) := EventOf(kid, defId, now, actorType, actorId, p, computed, note)]
        && audit == old(audit) + [AuditEntry(actorType, actorId, "infraction.apply")]
    {
      if defId !in defs {
        return Err("Infraction not found");
      }
      var strikeBefore := GetStrikes(kid, defId);
      var p := MakePlan(defs[defId], strikeBefore, now);
      r := ApplyPlan(priv, kid, defId, p, note, actorType, actorId, now, dbFails);
    }
  }
}
