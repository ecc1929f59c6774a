/** The seeding tool tools/seed-infractions.php: four built-in infraction definitions,
    normalised and upserted by code inside one transaction. */
module SeedInfractions {
  import opened Common
  import opened Infractions

  /** A definition as the tool lists it, before normalisation. */
  datatype SeedDef = SeedDef(code: string, title: string, active: int, mode: string, days: int,
                             ladder: seq<int>, blocks: map<string, int>, repairs: seq<string>,
                             reviewDays: int, sortOrder: int)

  /** Keeps the entries that are not blank after trimming, untrimmed and in order. */
  function NonBlank(rs: seq<string>): (r: seq<string>)
    ensures forall x :: x in r <==> x in rs && Trim(x) != []
  {
    if rs == [] then [] else (if Trim(rs[0]) != [] then [rs[0]] else []) + NonBlank(rs[1..])
  }

  /** `(int)($b[k] ?? 0) ? 1 : 0`. */
  function Flag(b: map<string, int>, k: string): (f: int)
    ensures f == 1 <==> k in b && b[k] != 0
    ensures f == 0 || f == 1
  {
    if k in b && b[k] != 0 then 1 else 0
  }

  /** The normalisation applied to each definition before it is written: the mode
      whitelist (exact match), positive rungs only, no blank repairs, 0/1 block flags. */
  function Normalise(d: SeedDef): (n: SeedDef)
    ensures n.mode == (if d.mode == "add" then "add" else "set")
    ensures n.ladder == Positives(d.ladder)
    ensures n.repairs == NonBlank(d.repairs)
    ensures n.blocks.Keys == {"phone", "games", "other"}
    ensures forall k :: k in n.blocks ==> n.blocks[k] == Flag(d.blocks, k)
    ensures n.code == d.code && n.title == d.title && n.active == d.active && n.days == d.days
    ensures n.reviewDays == d.reviewDays && n.sortOrder == d.sortOrder
  {
    d.(mode := if d.mode == "add" then "add" else "set",
       ladder := Positives(d.ladder),
       repairs := NonBlank(d.repairs),
       blocks := map["phone" := Flag(d.blocks, "phone"), "games" := Flag(d.blocks, "games"), "other" := Flag(d.blocks, "other")])
  }

  /** The stored row for a normalised definition created at `createdAt`. */
  function SeedRow(d: SeedDef, createdAt: int): (r: DefRow)
    ensures r.code == d.code && r.createdAt == createdAt
  {
    DefRow(d.code, d.title, d.active != 0, d.mode, d.days, d.ladder, Arr(d.blocks), d.repairs,
           d.reviewDays, d.sortOrder, createdAt)
  }

  predicate HasCode(defs: map<int, DefRow>, code: string)
  {
    exists id :: id in defs && defs[id].code == code
  }

  /** `upsert_def`: when a row has the code, every such row takes the new values and
      keeps its creation time; otherwise one row is inserted under the next id. */
  function Upserted(defs: map<int, DefRow>, nextId: int, d: SeedDef, now: int): (r: (map<int, DefRow>, int))
    ensures HasCode(defs, d.code) ==> r.1 == nextId && r.0.Keys == defs.Keys
    ensures !HasCode(defs, d.code) ==> r.1 == nextId + 1 && r.0 == defs[nextId := SeedRow(d, now)]
    ensures forall id :: id in defs && defs[id].code != d.code && id != nextId ==> id in r.0 && r.0[id] == defs[id]
    ensures forall id :: id in defs && defs[id].code == d.code ==> id in r.0 && r.0[id] == SeedRow(d, defs[id].createdAt)
  {
    if HasCode(defs, d.code) then
      (map id | id in defs :: if defs[id].code == d.code then SeedRow(d, defs[id].createdAt) else defs[id], nextId)
    else
      (defs[nextId := SeedRow(d, now)], nextId + 1)
  }

  /** The table already holds `d`: some row has its code and every such row has its values. */
  predicate Holds(defs: map<int, DefRow>, d: SeedDef)
  {
    HasCode(defs, d.code) && forall id :: id in defs && defs[id].code == d.code ==> defs[id] == SeedRow(d, defs[id].createdAt)
  }

  /** After an upsert the table holds the definition. */
  lemma UpsertHolds(defs: map<int, DefRow>, nextId: int, d: SeedDef, now: int)
    requires forall id :: id in defs ==> id < nextId
    ensures Holds(Upserted(defs, nextId, d, now).0, d)
  {
    var r := Upserted(defs, nextId, d, now).0;
    if !HasCode(defs, d.code) {
      assert r[nextId].code == d.code;
    } else {
      var id :| id in defs && defs[id].code == d.code;
      assert r[id].code == d.code;
    }
  }

  /** Upserting a definition the table already holds changes nothing. */
  lemma UpsertHeld(defs: map<int, DefRow>, nextId: int, d: SeedDef, now: int)
    requires Holds(defs, d)
    ensures Upserted(defs, nextId, d, now) == (defs, nextId)
  {
    var r := Upserted(defs, nextId, d, now).0;
    assert forall id :: id in r ==> r[id] == defs[id];
    assert r == defs;
  }

  /** An upsert leaves alone a definition held under another code. */
  lemma UpsertKeepsOther(defs: map<int, DefRow>, nextId: int, d: SeedDef, e: SeedDef, now: int)
    requires forall id :: id in defs ==> id < nextId
    requires Holds(defs, e) && e.code != d.code
    ensures Holds(Upserted(defs, nextId, d, now).0, e)
  {
    var r := Upserted(defs, nextId, d, now).0;
    var id :| id in defs && defs[id].code == e.code;
    assert id in r && r[id].code == e.code;
  }

  /** The table after the loop has upserted each normalised definition in turn. */
  function SeedFold(defs: map<int, DefRow>, nextId: int, seeds: seq<SeedDef>, now: int): (r: (map<int, DefRow>, int))
    decreases |seeds|
  {
    if seeds == [] then (defs, nextId)
    else
      var step := Upserted(defs, nextId, Normalise(seeds[0]), now);
      SeedFold(step.0, step.1, seeds[1..], now)
  }

  lemma {:induction false} SeedFoldAppend(defs: map<int, DefRow>, nextId: int, seeds: seq<SeedDef>, d: SeedDef, now: int)
    ensures var m := SeedFold(defs, nextId, seeds, now);
      SeedFold(defs, nextId, seeds + [d], now) == Upserted(m.0, m.1, Normalise(d), now)
    decreases |seeds|
  {
    if seeds == [] {
      assert seeds + [d] == [d];
    } else {
      var step := Upserted(defs, nextId, Normalise(seeds[0]), now);
      assert (seeds + [d])[1..] == seeds[1..] + [d];
      SeedFoldAppend(step.0, step.1, seeds[1..], d, now);
    }
  }

  /** Fresh ids stay above every id in use. */
  lemma {:induction false} SeedFoldIds(defs: map<int, DefRow>, nextId: int, seeds: seq<SeedDef>, now: int)
    requires forall id :: id in defs ==> 0 < id < nextId
    requires nextId >= 1
    ensures var r := SeedFold(defs, nextId, seeds, now);
      r.1 >= nextId && defs.Keys <= r.0.Keys && forall id :: id in r.0 ==> 0 < id < r.1
    decreases |seeds|
  {
    if seeds != [] {
      var step := Upserted(defs, nextId, Normalise(seeds[0]), now);
      SeedFoldIds(step.0, step.1, seeds[1..], now);
    }
  }

  predicate DistinctCodes(seeds: seq<SeedDef>)
  {
    forall i, j :: 0 <= i < j < |seeds| ==> seeds[i].code != seeds[j].code
  }

  /** After seeding, the table holds every definition of a list with distinct codes. */
  lemma {:induction false} SeedFoldHolds(defs: map<int, DefRow>, nextId: int, seeds: seq<SeedDef>, now: int)
    requires forall id :: id in defs ==> 0 < id < nextId
    requires nextId >= 1
    requires DistinctCodes(seeds)
    ensures forall i :: 0 <= i < |seeds| ==> Holds(SeedFold(defs, nextId, seeds, now).0, Normalise(seeds[i]))
    decreases |seeds|
  {
    if seeds != [] {
      var step := Upserted(defs, nextId, Normalise(seeds[0]), now);
      var rest := seeds[1..];
      SeedFoldHolds(step.0, step.1, rest, now);
      UpsertHolds(defs, nextId, Normalise(seeds[0]), now);
      HeldThrough(step.0, step.1, rest, Normalise(seeds[0]), now);
      forall i | 0 <= i < |seeds| ensures Holds(SeedFold(defs, nextId, seeds, now).0, Normalise(seeds[i])) {
        if i > 0 {
          assert seeds[i] == rest[i - 1];
        }
      }
    }
  }

  /** A held definition whose code no later definition uses stays held. */
  lemma {:induction false} HeldThrough(defs: map<int, DefRow>, nextId: int, seeds: seq<SeedDef>, e: SeedDef, now: int)
    requires forall id :: id in defs ==> 0 < id < nextId
    requires Holds(defs, e)
    requires forall i :: 0 <= i < |seeds| ==> seeds[i].code != e.code
    ensures Holds(SeedFold(defs, nextId, seeds, now).0, e)
    decreases |seeds|
  {
    if seeds != [] {
      var d := Normalise(seeds[0]);
      assert seeds[0].code != e.code;
      UpsertKeepsOther(defs, nextId, d, e, now);
      var step := Upserted(defs, nextId, d, now);
      if HasCode(defs, d.code) {
        assert forall id :: id in step.0 ==> 0 < id < step.1;
      }
      HeldThrough(step.0, step.1, seeds[1..], e, now);
    }
  }

  /** Seeding a table that already holds every definition changes nothing. */
  lemma {:induction false} SeedFoldHeld(defs: map<int, DefRow>, nextId: int, seeds: seq<SeedDef>, now: int)
    requires forall i :: 0 <= i < |seeds| ==> Holds(defs, Normalise(seeds[i]))
    ensures SeedFold(defs, nextId, seeds, now) == (defs, nextId)
    decreases |seeds|
  {
    if seeds != [] {
      UpsertHeld(defs, nextId, Normalise(seeds[0]), now);
      SeedFoldHeld(defs, nextId, seeds[1..], now);
    }
  }

  /** The tool is idempotent by code: running it a second time, at any time, leaves the
      table and the next id as the first run left them. */
  lemma SeedIdempotent(defs: map<int, DefRow>, nextId: int, seeds: seq<SeedDef>, now: int, later: int)
    requires forall id :: id in defs ==> 0 < id < nextId
    requires nextId >= 1
    requires DistinctCodes(seeds)
    ensures var once := SeedFold(defs, nextId, seeds, now);
      SeedFold(once.0, once.1, seeds, later) == once
  {
    SeedFoldHolds(defs, nextId, seeds, now);
    var once := SeedFold(defs, nextId, seeds, now);
    SeedFoldHeld(once.0, once.1, seeds, later);
  }

  /** Seeding never removes a row and never touches a row whose code is not seeded. */
  lemma {:induction false} SeedFoldKeepsOthers(defs: map<int, DefRow>, nextId: int, seeds: seq<SeedDef>, now: int, id: int)
    requires forall k :: k in defs ==> 0 < k < nextId
    requires nextId >= 1
    requires id in defs && forall i :: 0 <= i < |seeds| ==> seeds[i].code != defs[id].code
    ensures id in SeedFold(defs, nextId, seeds, now).0 && SeedFold(defs, nextId, seeds, now).0[id] == defs[id]
    decreases |seeds|
  {
    if seeds != [] {
      var step := Upserted(defs, nextId, Normalise(seeds[0]), now);
      assert seeds[0].code != defs[id].code;
      if HasCode(defs, Normalise(seeds[0]).code) {
        assert forall k :: k in step.0 ==> 0 < k < step.1;
      }
      SeedFoldKeepsOthers(step.0, step.1, seeds[1..], now, id);
    }
  }

  /** `upsert_def`: one SELECT by code, then the INSERT or the UPDATE. */
  method UpsertDef(db: InfractionDb, d: SeedDef, now: int)
    requires db.Valid()
    modifies db`defs, db`nextDefId
    ensures db.Valid()
    ensures (db.defs, db.nextDefId) == Upserted(old(db.defs), old(db.nextDefId), d, now)
  {
    if exists id :: id in db.defs && db.defs[id].code == d.code {
      db.defs := map id | id in db.defs :: if db.defs[id].code == d.code then SeedRow(d, db.defs[id].createdAt) else db.defs[id];
    } else {
      db.defs := db.defs[db.nextDefId := SeedRow(d, now)];
      db.nextDefId := db.nextDefId + 1;
    }
  }

  /** The tool's transaction: each definition normalised and upserted in order; when
      the statement for position `failAt` fails, the upserts before it are rolled back. */
  method Seed(db: InfractionDb, seeds: seq<SeedDef>, now: int, failAt: Option<nat>) returns (ok: bool)
    requires db.Valid()
    modifies db`defs, db`nextDefId
    ensures db.Valid()
    ensures ok <==> failAt.None? || failAt.value >= |seeds|
    ensures ok ==> (db.defs, db.nextDefId) == SeedFold(old(db.defs), old(db.nextDefId), seeds, now)
    ensures !ok ==> db.defs == old(db.defs) && db.nextDefId == old(db.nextDefId)
  {
    var savedDefs, savedNext := db.defs, db.nextDefId;
    var stop := if failAt.Some? && failAt.value < |seeds| then failAt.value else |seeds|;
    var i := 0;
    while i < stop
      invariant 0 <= i <= stop
      invariant db.Valid()
      invariant (db.defs, db.nextDefId) == SeedFold(savedDefs, savedNext, seeds[..i], now)
    {
      SeedStep(db, savedDefs, savedNext, seeds, i, now);
      i := i + 1;
    }
    if stop < |seeds| {
      db.defs, db.nextDefId := savedDefs, savedNext;
      return false;
    }
    assert seeds[..i] == seeds;
    ok := true;
  }

  /** One pass of the loop: normalise the next definition and upsert it. */
  method SeedStep(db: InfractionDb, savedDefs: map<int, DefRow>, savedNext: int, seeds: seq<SeedDef>, i: nat, now: int)
    requires i < |seeds| && db.Valid()
    requires (db.defs, db.nextDefId) == SeedFold(savedDefs, savedNext, seeds[..i], now)
    modifies db`defs, db`nextDefId
    ensures db.Valid()
    ensures (db.defs, db.nextDefId) == SeedFold(savedDefs, savedNext, seeds[..i + 1], now)
  {
    SeedFoldAppend(savedDefs, savedNext, seeds[..i], seeds[i], now);
    assert seeds[..i + 1] == seeds[..i] + [seeds[i]];
    UpsertDef(db, Normalise(seeds[i]), now);
  }

  // ---------------------------------------------------------------- the built-in list

  const Disrespect := SeedDef("DISRESPECT", "Disrespect", 1, "add", 0, [1, 3, 7],
    map["phone" := 1, "games" := 1, "other" := 0],
    ["Apology (specific + sincere)", "Repair action (clean-up / make-right)", "Respectful tone for 24h"], 0, 10)

  const Violence := SeedDef("VIOLENCE", "Violence / Threats", 1, "set", 0, [3, 7, 14],
    map["phone" := 1, "games" := 1, "other" := 1],
    ["Cooling-off period", "Safety plan check-in", "Restitution / make-right (if applicable)"], 0, 20)

  const SkipChores := SeedDef("SKIP_CHORES", "Skipping chores / refusing tasks", 1, "add", 1, [],
    map["phone" := 0, "games" := 1, "other" := 0],
    ["Complete the missed chore", "Complete 1 extra chore (optional)"], 0, 30)

  const Vaping := SeedDef("VAPING", "Vaping / nicotine", 1, "set", 0, [14, 14, 21],
    map["phone" := 1, "games" := 1, "other" := 1],
    ["Confiscation + parent meeting", "Health / education conversation", "Restitution (cost/impact) if applicable"], 0, 40)

  const BuiltIn: seq<SeedDef> := [Disrespect, Violence, SkipChores, Vaping]

  /** The built-in list has distinct codes, so running the tool twice is harmless. */
  lemma BuiltInIdempotent(defs: map<int, DefRow>, nextId: int, now: int, later: int)
    requires forall id :: id in defs ==> 0 < id < nextId
    requires nextId >= 1
    ensures var once := SeedFold(defs, nextId, BuiltIn, now);
      SeedFold(once.0, once.1, BuiltIn, later) == once
  {
    assert DistinctCodes(BuiltIn);
    SeedIdempotent(defs, nextId, BuiltIn, now, later);
  }

  /** The rungs a three-rung ladder of positive entries gives: strike 1, strike 2, and
      the last rung for strike 3 and every later one. */
  lemma {:induction false} ThreeRungs(row: DefRow, a: int, b: int, c: int, later: int)
    requires row.ladder == [a, b, c] && a > 0 && b > 0 && c > 0
    requires later >= 3
    ensures ComputeDays(row, 1) == a && ComputeDays(row, 2) == b && ComputeDays(row, later) == c
  {
    PositivesSpec(row.ladder);
  }

  /** The row a normalised definition stores, as the engine reads it: its positive
      rungs, its whitelisted mode and its 0/1 block flags. */
  lemma NormalisedRow(d: SeedDef, createdAt: int)
    ensures var row := SeedRow(Normalise(d), createdAt);
      && row.ladder == Positives(d.ladder) && row.days == d.days && row.reviewDays == d.reviewDays
      && EngineMode(row.mode) == (if d.mode == "add" then Add else Set)
      && DecodeBlocks(row.blocks) == Triple(Flag(d.blocks, "phone"), Flag(d.blocks, "games"), Flag(d.blocks, "other"))
  {
  }

  /** Disrespect escalates 1, 3, 7 days and then stays at 7, stacking onto existing
      locks on phone and games; its review comes after half the days, rounded up. */
  lemma DisrespectLadder(createdAt: int)
    ensures var row := SeedRow(Normalise(Disrespect), createdAt);
      && EngineMode(row.mode) == Add
      && DecodeBlocks(row.blocks) == Triple(1, 1, 0)
      && ComputeDays(row, 1) == 1 && ComputeDays(row, 2) == 3
      && ComputeDays(row, 3) == 7 && ComputeDays(row, 4) == 7
      && ReviewDays(row.reviewDays, 1) == 1 && ReviewDays(row.reviewDays, 3) == 2
      && ReviewDays(row.reviewDays, 7) == 4
  {
    NormalisedRow(Disrespect, createdAt);
    PositivesSpec([1, 3, 7]);
    ThreeRungs(SeedRow(Normalise(Disrespect), createdAt), 1, 3, 7, 3);
    ThreeRungs(SeedRow(Normalise(Disrespect), createdAt), 1, 3, 7, 4);
  }

  /** Skipping chores has no ladder: every strike costs the default single day, on
      games only. */
  lemma SkipChoresDefault(createdAt: int, strikeAfter: int)
    ensures var row := SeedRow(Normalise(SkipChores), createdAt);
      ComputeDays(row, strikeAfter) == 1 && DecodeBlocks(row.blocks) == Triple(0, 1, 0) &&
      EngineMode(row.mode) == Add
  {
    NormalisedRow(SkipChores, createdAt);
  }

  /** Vaping sets every lock from now: 14, 14, then 21 days from the third strike on. */
  lemma VapingLadder(createdAt: int, strikeAfter: int)
    requires strikeAfter >= 3
    ensures var row := SeedRow(Normalise(Vaping), createdAt);
      EngineMode(row.mode) == Set && ComputeDays(row, 1) == 14 && ComputeDays(row, 2) == 14 &&
      ComputeDays(row, strikeAfter) == 21 && DecodeBlocks(row.blocks) == Triple(1, 1, 1)
  {
    NormalisedRow(Vaping, createdAt);
    PositivesSpec([14, 14, 21]);
    var row := SeedRow(Normalise(Vaping), createdAt);
    ThreeRungs(row, 14, 14, 21, strikeAfter);
  }
}
