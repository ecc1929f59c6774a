/** The weekday chore rotation of lib/rotation.php. Dates are day numbers counted from
    1970-01-01 (a Thursday); the day string an assignment is stored under is kept
    apart from the day number it parses to. */
module Rotation {
  import opened Common
  import opened ChoreData

  // ---------------------------------------------------------------- calendar

  /** ISO day of the week, Monday = 1 … Sunday = 7 (`format('N')`). */
  function IsoWeekday(day: int): (n: int)
    ensures 1 <= n <= 7
  {
    (day + 3) % 7 + 1
  }

  /** The next day is the next day of the week, Sunday wrapping to Monday. */
  lemma IsoWeekdayNext(day: int)
    ensures IsoWeekday(day + 1) == (if IsoWeekday(day) == 7 then 1 else IsoWeekday(day) + 1)
  {
  }

  /** `gb2_week_start_monday`: the Monday on or before the day. */
  function WeekStartMonday(day: int): (m: int)
    ensures IsoWeekday(m) == 1
    ensures m <= day < m + 7
  {
    day - (IsoWeekday(day) - 1)
  }

  /** Every day of one Monday-to-Sunday week has the same week start. */
  lemma WeekStartSameWeek(day: int, other: int)
    requires WeekStartMonday(day) <= other < WeekStartMonday(day) + 7
    ensures WeekStartMonday(other) == WeekStartMonday(day)
  {
  }

  /** `gb2_is_weekday`: Monday to Friday. */
  function IsWeekday(day: int): (r: bool)
    ensures r <==> IsoWeekday(day) <= 5
  {
    IsoWeekday(day) <= 5
  }

  /** `gb2_weekday_offset`: Monday = 0. */
  function WeekdayOffset(day: int): (k: int)
    ensures 0 <= k <= 6
    ensures k == day - WeekStartMonday(day)
  {
    IsoWeekday(day) - 1
  }

  // ---------------------------------------------------------------- rule and slots

  const DefaultKids: seq<string> := ["Megan", "Stacey", "Barry", "Brady", "Parker"]
  const DefaultSlots: seq<string> := ["Dishes", "Trash + Bathrooms", "Help Cook", "Common Areas", "Help Everybody"]

  /** The rule created when none is stored: the configured lists, or the built-in ones. */
  function DefaultRule(cfgKids: Option<seq<string>>, cfgSlots: Option<seq<string>>): RotationRule
  {
    RotationRule("Default Weekday Rotation",
                 if cfgKids.Some? then cfgKids.value else DefaultKids,
                 if cfgSlots.Some? then cfgSlots.value else DefaultSlots)
  }

  /** The rule a fetch returns: the stored one, or the default one created in its place. */
  function LoadedRule(stored: Option<RotationRule>, cfgKids: Option<seq<string>>, cfgSlots: Option<seq<string>>): RotationRule
  {
    if stored.Some? then stored.value else DefaultRule(cfgKids, cfgSlots)
  }

  /** `gb2_rotation_rule_get_or_create_default`: the latest rule, or a new default one
      from the configured lists (or the built-in ones). */
  method RuleGetOrCreate(db: ChoreDb, cfgKids: Option<seq<string>>, cfgSlots: Option<seq<string>>)
    returns (rule: RotationRule)
    modifies db`rule
    ensures old(db.rule).Some? ==> rule == old(db.rule).value && db.rule == old(db.rule)
    ensures old(db.rule).None? ==>
      rule == RotationRule("Default Weekday Rotation",
                           if cfgKids.Some? then cfgKids.value else DefaultKids,
                           if cfgSlots.Some? then cfgSlots.value else DefaultSlots) &&
      db.rule == Some(rule)
  {
    if db.rule.Some? {
      return db.rule.value;
    }
    rule := RotationRule("Default Weekday Rotation",
                         if cfgKids.Some? then cfgKids.value else DefaultKids,
                         if cfgSlots.Some? then cfgSlots.value else DefaultSlots);
    db.rule := Some(rule);
  }

  predicate HasTitle(slots: seq<SlotRow>, t: string)
  {
    exists k :: 0 <= k < |slots| && slots[k].title == t
  }

  /** The slot table after `gb2_rotation_ensure_slots_exist` has handled `titles[..n]`:
      each trimmed, non-blank title not yet present is appended, active, with its
      position as sort order. */
  function EnsuredSlots(slots: seq<SlotRow>, titles: seq<string>, n: nat): (r: seq<SlotRow>)
    requires n <= |titles|
    ensures |slots| <= |r| && r[..|slots|] == slots
  {
    if n == 0 then slots
    else
      var prev := EnsuredSlots(slots, titles, n - 1);
      var t := Trim(titles[n - 1]);
      if t == [] || HasTitle(prev, t) then prev else prev + [SlotRow(t, true, n - 1)]
  }

  /** After the pass, every trimmed non-blank title has a slot. */
  lemma {:induction false} EnsuredSlotsCover(slots: seq<SlotRow>, titles: seq<string>, n: nat, i: nat)
    requires i < n <= |titles| && Trim(titles[i]) != []
    ensures HasTitle(EnsuredSlots(slots, titles, n), Trim(titles[i]))
  {
    var prev := EnsuredSlots(slots, titles, n - 1);
    var r := EnsuredSlots(slots, titles, n);
    if i < n - 1 {
      EnsuredSlotsCover(slots, titles, n - 1, i);
      var k :| 0 <= k < |prev| && prev[k].title == Trim(titles[i]);
      assert r[..|prev|] == prev by { EnsuredSlotsPrefix(slots, titles, n - 1, n); }
      assert r[k] == prev[k];
    } else if !HasTitle(prev, Trim(titles[i])) {
      assert r[|prev|].title == Trim(titles[i]);
    }
  }

  lemma {:induction false} EnsuredSlotsPrefix(slots: seq<SlotRow>, titles: seq<string>, m: nat, n: nat)
    requires m <= n <= |titles|
    ensures var a := EnsuredSlots(slots, titles, m);
      |a| <= |EnsuredSlots(slots, titles, n)| && EnsuredSlots(slots, titles, n)[..|a|] == a
    decreases n
  {
    if m < n {
      EnsuredSlotsPrefix(slots, titles, m, n - 1);
      var a := EnsuredSlots(slots, titles, m);
      var b := EnsuredSlots(slots, titles, n - 1);
      var c := EnsuredSlots(slots, titles, n);
      assert c[..|b|] == b;
      assert c[..|a|] == b[..|a|];
    }
  }

  predicate DistinctTitles(slots: seq<SlotRow>)
  {
    forall a, b :: 0 <= a < b < |slots| ==> slots[a].title != slots[b].title
  }

  /** No title is added twice: slot titles that were distinct stay distinct. */
  lemma {:induction false} EnsuredSlotsDistinct(slots: seq<SlotRow>, titles: seq<string>, n: nat)
    requires n <= |titles|
    requires DistinctTitles(slots)
    ensures DistinctTitles(EnsuredSlots(slots, titles, n))
  {
    if n > 0 {
      EnsuredSlotsDistinct(slots, titles, n - 1);
      var prev := EnsuredSlots(slots, titles, n - 1);
      var t := Trim(titles[n - 1]);
      if !(t == [] || HasTitle(prev, t)) {
        var r := prev + [SlotRow(t, true, n - 1)];
        forall a, b | 0 <= a < b < |r| ensures r[a].title != r[b].title {
          assert r[a] == prev[a];
          if b < |prev| {
            assert r[b] == prev[b];
            assert prev[a].title != prev[b].title;
          } else {
            assert r[b].title == t;
            assert !(0 <= a < |prev| && prev[a].title == t);
          }
        }
        assert EnsuredSlots(slots, titles, n) == r;
      }
    }
  }

  /** `gb2_rotation_ensure_slots_exist`. */
  method EnsureSlotsExist(db: ChoreDb, titles: seq<string>)
    modifies db`slots
    ensures db.slots == EnsuredSlots(old(db.slots), titles, |titles|)
  {
    var i := 0;
    while i < |titles|
      invariant 0 <= i <= |titles|
      invariant db.slots == EnsuredSlots(old(db.slots), titles, i)
    {
      var t := Trim(titles[i]);
      if t != [] {
        var found := exists k :: 0 <= k < |db.slots| && db.slots[k].title == t;
        if !found {
          db.slots := db.slots + [SlotRow(t, true, i)];
        }
      }
      i := i + 1;
    }
  }

  // ---------------------------------------------------------------- assignment

  /** The name-to-id map built from the kid list; a later kid with the same name wins. */
  function KidMapOf(kids: seq<KidRow>): (m: map<string, int>)
    ensures forall i :: 0 <= i < |kids| ==> kids[i].name in m
    ensures forall name :: name in m ==> exists i :: 0 <= i < |kids| && kids[i].name == name && kids[i].id == m[name]
  {
    if kids == [] then map[]
    else
      var prev := KidMapOf(kids[..|kids| - 1]);
      var last := kids[|kids| - 1];
      assert forall i :: 0 <= i < |kids| - 1 ==> kids[..|kids| - 1][i] == kids[i];
      prev[last.name := last.id]
  }

  /** The id of the first slot with the title (`SELECT id … WHERE title=? LIMIT 1`). */
  function SlotIdOf(slots: seq<SlotRow>, title: string): (r: Option<int>)
    ensures r.Some? ==> 1 <= r.value <= |slots| && slots[r.value - 1].title == title
    ensures r.None? <==> !HasTitle(slots, title)
  {
    if slots == [] then None
    else if slots[0].title == title then Some(1)
    else
      var r := SlotIdOf(slots[1..], title);
      assert forall k :: 1 <= k < |slots| ==> slots[1..][k - 1] == slots[k];
      if r.Some? then Some(r.value + 1) else None
  }

  /** The ids of the rule's slots that exist, in rule order (titles are looked up as
      stored, untrimmed). */
  function SlotIdsFor(slots: seq<SlotRow>, titles: seq<string>): (ids: seq<int>)
    ensures |ids| <= |titles|
    ensures forall k :: 0 <= k < |ids| ==> 1 <= ids[k] <= |slots|
  {
    if titles == [] then []
    else
      var r := SlotIdOf(slots, titles[0]);
      (if r.Some? then [r.value] else []) + SlotIdsFor(slots, titles[1..])
  }

  /** The slot the kid at rule position `i` takes on a day with this weekday offset. */
  function SlotFor(slotIds: seq<int>, i: nat, offset: nat): int
    requires |slotIds| > 0
  {
    slotIds[(i + offset) % |slotIds|]
  }

  /** From one weekday to the next the rotation moves by one position: tomorrow the kid
      at position `i` takes the slot the kid at position `i + 1` takes today. */
  lemma RotationAdvances(slotIds: seq<int>, i: nat, day: int)
    requires |slotIds| > 0 && IsoWeekday(day) <= 4
    ensures IsWeekday(day) && IsWeekday(day + 1)
    ensures WeekdayOffset(day + 1) == WeekdayOffset(day) + 1
    ensures SlotFor(slotIds, i, WeekdayOffset(day + 1)) == SlotFor(slotIds, i + 1, WeekdayOffset(day))
  {
    IsoWeekdayNext(day);
  }

  /** The assignments after the loop of `gb2_rotation_generate_for_day` has handled the
      first `n` rule names: a known kid without an assignment for the day gets the
      rotated slot, open; everything already there stays. */
  function Generated(asg: map<(string, int), Assignment>, day: string, names: seq<string>,
                     kidMap: map<string, int>, slotIds: seq<int>, offset: nat, n: nat): map<(string, int), Assignment>
    requires n <= |names| && |slotIds| > 0
  {
    if n == 0 then asg
    else
      var prev := Generated(asg, day, names, kidMap, slotIds, offset, n - 1);
      var name := names[n - 1];
      if name !in kidMap || (day, kidMap[name]) in prev then prev
      else prev[(day, kidMap[name]) := Assignment(SlotFor(slotIds, n - 1, offset), AssignOpen, None)]
  }

  /** Nothing is ever overwritten, and only the given day's keys are added. */
  lemma {:induction false} GeneratedKeeps(asg: map<(string, int), Assignment>, day: string, names: seq<string>,
                                          kidMap: map<string, int>, slotIds: seq<int>, offset: nat, n: nat)
    requires n <= |names| && |slotIds| > 0
    ensures var r := Generated(asg, day, names, kidMap, slotIds, offset, n);
      (forall key :: key in asg ==> key in r && r[key] == asg[key]) &&
      (forall key :: key in r && key !in asg ==> key.0 == day)
  {
    if n > 0 {
      GeneratedKeeps(asg, day, names, kidMap, slotIds, offset, n - 1);
    }
  }

  /** Every known kid named in the rule has an assignment for the day; the first
      position naming a kid that had none fixes its slot. */
  lemma {:induction false} GeneratedAssigns(asg: map<(string, int), Assignment>, day: string, names: seq<string>,
                                            kidMap: map<string, int>, slotIds: seq<int>, offset: nat, n: nat, i: nat)
    requires i < n <= |names| && |slotIds| > 0 && names[i] in kidMap
    ensures var r := Generated(asg, day, names, kidMap, slotIds, offset, n);
      (day, kidMap[names[i]]) in r &&
      ((day, kidMap[names[i]]) !in asg && (forall j :: 0 <= j < i && names[j] in kidMap ==> kidMap[names[j]] != kidMap[names[i]]) ==>
        r[(day, kidMap[names[i]])] == Assignment(SlotFor(slotIds, i, offset), AssignOpen, None))
  {
    var key := (day, kidMap[names[i]]);
    if i < n - 1 {
      GeneratedAssigns(asg, day, names, kidMap, slotIds, offset, n - 1, i);
    } else {
      if key !in asg && (forall j :: 0 <= j < i && names[j] in kidMap ==> kidMap[names[j]] != kidMap[names[i]]) {
        GeneratedFresh(asg, day, names, kidMap, slotIds, offset, i, kidMap[names[i]]);
      }
    }
  }

  /** A kid no earlier position names gets no assignment from those positions. */
  lemma {:induction false} GeneratedFresh(asg: map<(string, int), Assignment>, day: string, names: seq<string>,
                                          kidMap: map<string, int>, slotIds: seq<int>, offset: nat, n: nat, kid: int)
    requires n <= |names| && |slotIds| > 0 && (day, kid) !in asg
    requires forall j :: 0 <= j < n && names[j] in kidMap ==> kidMap[names[j]] != kid
    ensures (day, kid) !in Generated(asg, day, names, kidMap, slotIds, offset, n)
  {
    if n > 0 {
      GeneratedFresh(asg, day, names, kidMap, slotIds, offset, n - 1, kid);
    }
  }

  /** When every named kid already has an assignment for the day, nothing changes. */
  lemma {:induction false} GeneratedNoop(asg: map<(string, int), Assignment>, day: string, names: seq<string>,
                                         kidMap: map<string, int>, slotIds: seq<int>, offset: nat, n: nat)
    requires n <= |names| && |slotIds| > 0
    requires forall i :: 0 <= i < n && names[i] in kidMap ==> (day, kidMap[names[i]]) in asg
    ensures Generated(asg, day, names, kidMap, slotIds, offset, n) == asg
  {
    if n > 0 {
      GeneratedNoop(asg, day, names, kidMap, slotIds, offset, n - 1);
    }
  }

  /** Generating the same day twice is the same as once. */
  lemma GeneratedIdempotent(asg: map<(string, int), Assignment>, day: string, names: seq<string>,
                            kidMap: map<string, int>, slotIds: seq<int>, offset: nat)
    requires |slotIds| > 0
    ensures var once := Generated(asg, day, names, kidMap, slotIds, offset, |names|);
      Generated(once, day, names, kidMap, slotIds, offset, |names|) == once
  {
    var once := Generated(asg, day, names, kidMap, slotIds, offset, |names|);
    forall i | 0 <= i < |names| && names[i] in kidMap ensures (day, kidMap[names[i]]) in once {
      GeneratedAssigns(asg, day, names, kidMap, slotIds, offset, |names|, i);
    }
    GeneratedNoop(once, day, names, kidMap, slotIds, offset, |names|);
  }

  /** The assignment loop. */
  method AssignLoop(db: ChoreDb, day: string, names: seq<string>, kidMap: map<string, int>, slotIds: seq<int>, offset: nat)
    requires |slotIds| > 0
    modifies db`assignments
    ensures db.assignments == Generated(old(db.assignments), day, names, kidMap, slotIds, offset, |names|)
  {
    var i := 0;
    while i < |names|
      invariant 0 <= i <= |names|
      invariant db.assignments == Generated(old(db.assignments), day, names, kidMap, slotIds, offset, i)
    {
      var name := names[i];
      if name in kidMap {
        var key := (day, kidMap[name]);
        if key !in db.assignments {
          db.assignments := db.assignments[key := Assignment(SlotFor(slotIds, i, offset), AssignOpen, None)];
        }
      }
      i := i + 1;
    }
  }

  /** `gb2_rotation_generate_for_day`: `parsed` is the day the string denotes, or `None`
      when it does not parse (today is used for the weekday then, but the string is
      still the key). Weekends and rules whose slots all fail to resolve change no
      assignment. */
  method GenerateForDay(db: ChoreDb, day: string, parsed: Option<int>, today: int,
                        cfgKids: Option<seq<string>>, cfgSlots: Option<seq<string>>)
    modifies db`rule, db`slots, db`assignments
    ensures var d := if parsed.Some? then parsed.value else today;
      !IsWeekday(d) ==> db.rule == old(db.rule) && db.slots == old(db.slots) && db.assignments == old(db.assignments)
    ensures var d := if parsed.Some? then parsed.value else today;
      IsWeekday(d) ==>
        var rule := LoadedRule(old(db.rule), cfgKids, cfgSlots);
        && db.rule == Some(rule)
        && db.slots == EnsuredSlots(old(db.slots), rule.slots, |rule.slots|)
        && var ids := SlotIdsFor(db.slots, rule.slots);
          db.assignments == (if ids == [] then old(db.assignments)
                             else Generated(old(db.assignments), day, rule.kids, KidMapOf(db.kids), ids,
                                            WeekdayOffset(d), |rule.kids|))
  {
    var d := if parsed.Some? then parsed.value else today;
    if !IsWeekday(d) {
      return;
    }
    var rule := RuleGetOrCreate(db, cfgKids, cfgSlots);
    assert rule == LoadedRule(old(db.rule), cfgKids, cfgSlots);
    EnsureSlotsExist(db, rule.slots);
    var kidMap := KidMapOf(db.kids);
    var slotIds := SlotIdsFor(db.slots, rule.slots);
    if |slotIds| < 1 {
      return;
    }
    AssignLoop(db, day, rule.kids, kidMap, slotIds, WeekdayOffset(d));
  }
}
