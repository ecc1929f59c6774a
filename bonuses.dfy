/** The weekly bonus pool of lib/bonuses.php: the week a day belongs to, filling a week
    with instances of the active definitions, listing a week, and claiming an instance. */
module Bonuses {
  import opened Common
  import opened ChoreData
  import Rotation

  /** `gb2_bonus_week_start`: the Monday of the given day's week, or of today's week when
      the day does not parse (`parsed` is `None`). Days are numbered from 1970-01-01. */
  function BonusWeekStart(parsed: Option<int>, today: int): (m: int)
    ensures Rotation.IsoWeekday(m) == 1
    ensures parsed.Some? ==> m <= parsed.value < m + 7
    ensures parsed.None? ==> m <= today < m + 7
  {
    Rotation.WeekStartMonday(if parsed.Some? then parsed.value else today)
  }

  /** Every day of a week maps to the same week start, which maps to itself. */
  lemma BonusWeekStartStable(parsed: Option<int>, today: int, other: int)
    requires BonusWeekStart(parsed, today) <= other < BonusWeekStart(parsed, today) + 7
    ensures BonusWeekStart(Some(other), today) == BonusWeekStart(parsed, today)
    ensures BonusWeekStart(Some(BonusWeekStart(parsed, today)), today) == BonusWeekStart(parsed, today)
  {
    var d := if parsed.Some? then parsed.value else today;
    Rotation.WeekStartSameWeek(d, other);
    Rotation.WeekStartSameWeek(d, Rotation.WeekStartMonday(d));
  }

  /** How many instances a definition gets each week: its maximum, at least one. */
  function PerWeek(d: BonusDef): (n: int)
    ensures n >= 1
    ensures d.maxPerWeek >= 1 ==> n == d.maxPerWeek
  {
    Max(1, d.maxPerWeek)
  }

  function Repeat(id: int, n: nat): (r: seq<int>)
    ensures |r| == n && forall k :: 0 <= k < n ==> r[k] == id
  {
    if n == 0 then [] else Repeat(id, n - 1) + [id]
  }

  /** The definition ids of the instances one reset inserts, in insertion order: each
      definition of `order` repeated as many times as it allows per week. */
  function Copies(defs: map<int, BonusDef>, order: seq<int>): seq<int>
    requires forall k :: 0 <= k < |order| ==> order[k] in defs
  {
    if order == [] then []
    else
      var last := order[|order| - 1];
      Copies(defs, order[..|order| - 1]) + Repeat(last, PerWeek(defs[last]))
  }

  /** A reset inserts, for each definition of `order` listed once, exactly as many
      instances as it allows per week, and none for any other id. */
  lemma {:induction false} CopiesCount(defs: map<int, BonusDef>, order: seq<int>, id: int)
    requires forall k :: 0 <= k < |order| ==> order[k] in defs
    requires forall a, b :: 0 <= a < b < |order| ==> order[a] != order[b]
    ensures id in order ==> multiset(Copies(defs, order))[id] == PerWeek(defs[id])
    ensures id !in order ==> multiset(Copies(defs, order))[id] == 0
  {
    if order != [] {
      var init, last := order[..|order| - 1], order[|order| - 1];
      assert order == init + [last];
      CopiesCount(defs, init, id);
      var rep := Repeat(last, PerWeek(defs[last]));
      assert multiset(Copies(defs, order)) == multiset(Copies(defs, init)) + multiset(rep);
      if id == last {
        assert id !in init;
        assert multiset(rep)[id] == PerWeek(defs[last]) by { RepeatCount(last, PerWeek(defs[last])); }
      } else {
        assert id !in rep;
        assert multiset(rep)[id] == 0;
      }
    }
  }

  lemma {:induction false} RepeatCount(id: int, n: nat)
    ensures multiset(Repeat(id, n))[id] == n
  {
    if n > 0 {
      RepeatCount(id, n - 1);
      assert multiset(Repeat(id, n)) == multiset(Repeat(id, n - 1)) + multiset{id};
    }
  }

  /** A freshly inserted instance: available and unclaimed. */
  function Fresh(weekStart: string, defId: int): Instance
  {
    Instance(weekStart, defId, Available, None, None, None)
  }

  /** The instances after inserting one fresh instance per entry of `ids`, with the
      auto-increment ids `start`, `start + 1`, and so on. */
  function Inserted(instances: map<int, Instance>, start: int, weekStart: string, ids: seq<int>): map<int, Instance>
  {
    if ids == [] then instances
    else
      Inserted(instances, start, weekStart, ids[..|ids| - 1])[start + |ids| - 1 := Fresh(weekStart, ids[|ids| - 1])]
  }

  /** Inserting keeps every row outside the new ids and adds exactly the new ids, each
      a fresh instance of its definition. */
  lemma {:induction false} InsertedSpec(instances: map<int, Instance>, start: int, weekStart: string, ids: seq<int>, id: int)
    ensures id in Inserted(instances, start, weekStart, ids) <==> id in instances || start <= id < start + |ids|
    ensures start <= id < start + |ids| ==> Inserted(instances, start, weekStart, ids)[id] == Fresh(weekStart, ids[id - start])
    ensures !(start <= id < start + |ids|) && id in instances ==> Inserted(instances, start, weekStart, ids)[id] == instances[id]
  {
    if ids != [] {
      var init := ids[..|ids| - 1];
      InsertedSpec(instances, start, weekStart, init, id);
      if start <= id < start + |init| {
        assert ids[id - start] == init[id - start];
      }
    }
  }

  /** Inserting `a` and then `b` is inserting `a + b`. */
  lemma {:induction false} InsertedConcat(instances: map<int, Instance>, start: int, weekStart: string, a: seq<int>, b: seq<int>)
    ensures Inserted(Inserted(instances, start, weekStart, a), start + |a|, weekStart, b)
         == Inserted(instances, start, weekStart, a + b)
  {
    if b != [] {
      var init := b[..|b| - 1];
      InsertedConcat(instances, start, weekStart, a, init);
      assert (a + b)[..|a + b| - 1] == a + init;
      assert (a + b)[|a + b| - 1] == b[|b| - 1];
    } else {
      assert a + b == a;
    }
  }

  /** One more copy is one more fresh instance under the next id. */
  lemma InsertedRepeatStep(instances: map<int, Instance>, start: int, weekStart: string, defId: int, j: nat)
    ensures Inserted(instances, start, weekStart, Repeat(defId, j + 1))
         == Inserted(instances, start, weekStart, Repeat(defId, j))[start + j := Fresh(weekStart, defId)]
  {
    assert Repeat(defId, j + 1)[..j] == Repeat(defId, j);
  }

  /** Inserts `count` fresh instances of one definition. */
  method InsertCopies(db: ChoreDb, weekStart: string, defId: int, count: nat)
    requires db.Valid()
    modifies db`instances, db`nextInstanceId
    ensures db.Valid()
    ensures db.instances == Inserted(old(db.instances), old(db.nextInstanceId), weekStart, Repeat(defId, count))
    ensures db.nextInstanceId == old(db.nextInstanceId) + count
  {
    var start := db.nextInstanceId;
    var j := 0;
    while j < count
      invariant 0 <= j <= count
      invariant db.Valid()
      invariant db.nextInstanceId == start + j
      invariant db.instances == Inserted(old(db.instances), start, weekStart, Repeat(defId, j))
    {
      InsertedRepeatStep(old(db.instances), start, weekStart, defId, j);
      db.instances := db.instances[db.nextInstanceId := Fresh(weekStart, defId)];
      db.nextInstanceId := db.nextInstanceId + 1;
      j := j + 1;
    }
  }

  /** The definitions a reset reads: the active ones, each once, in the order the query
      returns them (by sort order, then id). */
  predicate ActiveOrder(defs: map<int, BonusDef>, order: seq<int>)
  {
    (forall k :: 0 <= k < |order| ==> order[k] in defs && defs[order[k]].active) &&
    (forall a, b :: 0 <= a < b < |order| ==> order[a] != order[b]) &&
    (forall id :: id in defs && defs[id].active ==> id in order)
  }

  /** One more definition of the order adds its weekly copies at the end. */
  lemma CopiesStep(defs: map<int, BonusDef>, order: seq<int>, i: nat)
    requires i < |order| && forall k :: 0 <= k < |order| ==> order[k] in defs
    ensures Copies(defs, order[..i + 1]) == Copies(defs, order[..i]) + Repeat(order[i], PerWeek(defs[order[i]]))
  {
    assert order[..i + 1][..i] == order[..i];
  }

  /** `gb2_bonus_reset_week`: inserts the week's fresh instances for every active
      definition; it does not look at what the week already holds. */
  method ResetWeek(db: ChoreDb, weekStart: string, order: seq<int>)
    requires db.Valid()
    requires ActiveOrder(db.bonusDefs, order)
    modifies db`instances, db`nextInstanceId
    ensures db.Valid()
    ensures db.instances == Inserted(old(db.instances), old(db.nextInstanceId), weekStart, Copies(db.bonusDefs, order))
    ensures db.nextInstanceId == old(db.nextInstanceId) + |Copies(db.bonusDefs, order)|
  {
    var start := db.nextInstanceId;
    var i := 0;
    while i < |order|
      invariant 0 <= i <= |order|
      invariant db.Valid()
      invariant db.nextInstanceId == start + |Copies(db.bonusDefs, order[..i])|
      invariant db.instances == Inserted(old(db.instances), start, weekStart, Copies(db.bonusDefs, order[..i]))
    {
      var defId := order[i];
      var n := PerWeek(db.bonusDefs[defId]);
      ghost var before := Copies(db.bonusDefs, order[..i]);
      InsertCopies(db, weekStart, defId, n);
      CopiesStep(db.bonusDefs, order, i);
      InsertedConcat(old(db.instances), start, weekStart, before, Repeat(defId, n));
      i := i + 1;
    }
    assert order[..|order|] == order;
  }

  /** `gb2_bonus_list_week`: the instances of a week whose definition still exists (the
      query joins on the definition). */
  function ListWeek(instances: map<int, Instance>, defs: map<int, BonusDef>, weekStart: string): set<int>
  {
    set id | id in instances && instances[id].weekStart == weekStart && instances[id].defId in defs
  }

  /** After a reset of a week, each definition that was active has exactly its weekly
      number of new instances listed for that week, all available; the listing of every
      other week is unchanged. */
  lemma ResetWeekListed(instances: map<int, Instance>, defs: map<int, BonusDef>, start: int,
                        weekStart: string, order: seq<int>, other: string)
    requires ActiveOrder(defs, order)
    requires forall id :: id in instances ==> id < start
    requires other != weekStart
    ensures var after := Inserted(instances, start, weekStart, Copies(defs, order));
      (forall id :: start <= id < start + |Copies(defs, order)| ==>
         id in ListWeek(after, defs, weekStart) && after[id].status == Available && defs[after[id].defId].active) &&
      ListWeek(after, defs, other) == ListWeek(instances, defs, other)
  {
    var c := Copies(defs, order);
    var after := Inserted(instances, start, weekStart, c);
    forall id | start <= id < start + |c|
      ensures id in ListWeek(after, defs, weekStart) && after[id].status == Available && defs[after[id].defId].active
    {
      CopiesMember(defs, order, id - start);
      InsertedSpec(instances, start, weekStart, c, id);
    }
    forall id ensures id in ListWeek(after, defs, other) <==> id in ListWeek(instances, defs, other) {
      InsertedSpec(instances, start, weekStart, c, id);
    }
  }

  /** Every inserted definition id is one of the ordered active ones. */
  lemma {:induction false} CopiesMember(defs: map<int, BonusDef>, order: seq<int>, k: int)
    requires forall j :: 0 <= j < |order| ==> order[j] in defs
    requires 0 <= k < |Copies(defs, order)|
    ensures Copies(defs, order)[k] in order
  {
    var init, last := order[..|order| - 1], order[|order| - 1];
    var rep := Repeat(last, PerWeek(defs[last]));
    if k < |Copies(defs, init)| {
      CopiesMember(defs, init, k);
      assert Copies(defs, order)[k] == Copies(defs, init)[k];
    } else {
      assert Copies(defs, order)[k] == rep[k - |Copies(defs, init)|];
    }
  }

  /** The claim as `gb2_bonus_claim` decides it: only an existing, available instance can
      be claimed, and claiming records the kid and the time. */
  function ClaimOutcome(instances: map<int, Instance>, kid: int, id: int, now: int): (bool, map<int, Instance>)
  {
    if id in instances && instances[id].status == Available then
      (true, instances[id := instances[id].(status := Claimed, claimedBy := Some(kid), claimedAt := Some(now))])
    else
      (false, instances)
  }

  /** A claim succeeds exactly on an available instance and then holds it for the kid;
      a second claim, by anyone, fails and changes nothing. */
  lemma ClaimOnce(instances: map<int, Instance>, kid: int, other: int, id: int, now: int, later: int)
    ensures ClaimOutcome(instances, kid, id, now).0 <==> id in instances && instances[id].status == Available
    ensures var (ok, after) := ClaimOutcome(instances, kid, id, now);
      ok ==> after[id].status == Claimed && after[id].claimedBy == Some(kid) &&
             after[id].defId == instances[id].defId && after[id].weekStart == instances[id].weekStart &&
             (forall j :: j in instances && j != id ==> j in after && after[j] == instances[j]) &&
             ClaimOutcome(after, other, id, later) == (false, after)
  {
  }

  /** `gb2_bonus_claim`: reads the instance and claims it inside one transaction. */
  method Claim(db: ChoreDb, kid: int, id: int, now: int) returns (ok: bool)
    requires db.Valid()
    modifies db`instances
    ensures db.Valid()
    ensures (ok, db.instances) == ClaimOutcome(old(db.instances), kid, id, now)
  {
    if id !in db.instances || db.instances[id].status != Available {
      return false;
    }
    db.instances := db.instances[id := db.instances[id].(status := Claimed, claimedBy := Some(kid), claimedAt := Some(now))];
    ok := true;
  }
}
