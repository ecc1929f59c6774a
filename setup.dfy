/** The setup page, admin/setup.php: the admin password rule, the normalisation of the
    posted rotation settings, the order and slot lists the form shows, and the bonus
    definition handlers. */
module Setup {
  import opened Common
  import opened ChoreData
  import Rotation
  import InfractionDefs

  const MinPasswordLength := 10

  /** `set_admin`: the error for a password that is too short, or `None` when it is
      accepted. The length counts characters, one per byte of the posted string. */
  function PasswordError(pw: string): (r: Option<string>)
    ensures r.None? <==> |pw| >= MinPasswordLength
    ensures r.Some? ==> r.value == "Use at least 10 characters."
  {
    if |pw| < MinPasswordLength then Some("Use at least 10 characters.") else None
  }

  /** The posted ids with repeats removed, each kept at its first occurrence. */
  function Dedup(xs: seq<int>): (r: seq<int>)
    ensures forall x :: x in r <==> x in xs
    ensures forall a, b :: 0 <= a < b < |r| ==> r[a] != r[b]
  {
    if xs == [] then []
    else
      var init := Dedup(xs[..|xs| - 1]);
      var last := xs[|xs| - 1];
      assert forall x :: x in xs <==> x in xs[..|xs| - 1] || x == last;
      if last in init then init else init + [last]
  }

  /** The position of the first occurrence of `x`. */
  function IndexOf(xs: seq<int>, x: int): (i: nat)
    requires x in xs
    ensures i < |xs| && xs[i] == x
    ensures forall j :: 0 <= j < i ==> xs[j] != x
  {
    if xs[0] == x then 0 else 1 + IndexOf(xs[1..], x)
  }

  /** A value met in a prefix has its first occurrence there. */
  lemma IndexOfPrefix(xs: seq<int>, p: nat, x: int)
    requires p <= |xs| && x in xs[..p]
    ensures IndexOf(xs, x) == IndexOf(xs[..p], x) < p
  {
    var i := IndexOf(xs[..p], x);
    var k := IndexOf(xs, x);
    assert xs[i] == x;
    if k < p {
      assert xs[..p][k] == xs[k];
    }
  }

  /** The kept ids are in the order of their first occurrences. */
  lemma {:induction false} DedupOrder(xs: seq<int>)
    ensures forall a, b :: 0 <= a < b < |Dedup(xs)| ==> IndexOf(xs, Dedup(xs)[a]) < IndexOf(xs, Dedup(xs)[b])
  {
    if xs != [] {
      var n := |xs| - 1;
      var init := Dedup(xs[..n]);
      DedupOrder(xs[..n]);
      var r := Dedup(xs);
      forall a, b | 0 <= a < b < |r| ensures IndexOf(xs, r[a]) < IndexOf(xs, r[b]) {
        assert r[a] == init[a];
        assert r[a] in xs[..n];
        IndexOfPrefix(xs, n, r[a]);
        if b < |init| {
          assert r[b] == init[b];
          IndexOfPrefix(xs, n, r[b]);
        } else {
          assert r[b] == xs[n] && r[b] !in xs[..n];
          assert IndexOf(xs, r[b]) == n;
        }
      }
    }
  }

  /** An id list that already has no repeats is kept as it is. */
  lemma {:induction false} DedupDistinct(xs: seq<int>)
    requires forall a, b :: 0 <= a < b < |xs| ==> xs[a] != xs[b]
    ensures Dedup(xs) == xs
  {
    if xs != [] {
      DedupDistinct(xs[..|xs| - 1]);
      assert xs[|xs| - 1] !in xs[..|xs| - 1];
      assert xs[..|xs| - 1] + [xs[|xs| - 1]] == xs;
    }
  }

  /** Each posted kid id after `intval`. */
  function IntVals(raw: seq<string>): (r: seq<int>)
    ensures |r| == |raw| && forall i :: 0 <= i < |raw| ==> r[i] == IntCast(raw[i])
  {
    if raw == [] then [] else [IntCast(raw[0])] + IntVals(raw[1..])
  }

  /** The kid ids `save_rotation` keeps: cast, positive, without repeats. */
  function KidIdsOf(raw: seq<string>): (r: seq<int>)
    ensures forall x :: x in r <==> x > 0 && exists i :: 0 <= i < |raw| && IntCast(raw[i]) == x
    ensures forall a, b :: 0 <= a < b < |r| ==> r[a] != r[b]
  {
    var ints := IntVals(raw);
    PositivesSpec(ints);
    var r := Dedup(Positives(ints));
    assert forall x :: x in r <==> x > 0 && x in ints;
    r
  }

  /** The kids by id; a later row with the same id wins. */
  function IdNames(kids: seq<KidRow>): (m: map<int, string>)
    ensures forall i :: 0 <= i < |kids| ==> kids[i].id in m
    ensures forall id :: id in m ==> exists i :: 0 <= i < |kids| && kids[i].id == id && kids[i].name == m[id]
  {
    if kids == [] then map[]
    else
      var init := IdNames(kids[..|kids| - 1]);
      var k := kids[|kids| - 1];
      assert forall i :: 0 <= i < |kids| - 1 ==> kids[..|kids| - 1][i] == kids[i];
      init[k.id := k.name]
  }

  /** The names of the ids that name a kid, in the order of the ids. */
  function KidNames(ids: seq<int>, names: map<int, string>): (r: seq<string>)
    ensures |r| <= |ids|
    ensures r == [] <==> forall k :: 0 <= k < |ids| ==> ids[k] !in names
    ensures forall k :: 0 <= k < |r| ==> r[k] in names.Values
  {
    if ids == [] then []
    else
      var rest := KidNames(ids[1..], names);
      assert forall k :: 1 <= k < |ids| ==> ids[k] == ids[1..][k - 1];
      if ids[0] in names then [names[ids[0]]] + rest else rest
  }

  const MaxSlots := 10

  /** The slot titles `save_rotation` keeps: the first ten of the trimmed, non-blank
      titles, in the posted order. */
  function SlotTitles(raw: seq<string>): (r: seq<string>)
    ensures |r| <= MaxSlots
    ensures forall k :: 0 <= k < |r| ==> r[k] != [] && r[k] in InfractionDefs.TrimAll(raw)
    ensures var kept := InfractionDefs.NonEmptyLines(InfractionDefs.TrimAll(raw));
      |r| == Min(MaxSlots, |kept|) && r == kept[..|r|]
  {
    var kept := InfractionDefs.NonEmptyLines(InfractionDefs.TrimAll(raw));
    var n := Min(MaxSlots, |kept|);
    assert forall k :: 0 <= k < n ==> kept[..n][k] in kept;
    kept[..n]
  }

  /** When at most ten titles are non-blank, every one of them is kept, trimmed; and
      the titles of the first `n` posted entries come first, in order. */
  lemma SlotTitlesSpec(raw: seq<string>)
    ensures |InfractionDefs.NonEmptyLines(InfractionDefs.TrimAll(raw))| <= MaxSlots ==>
      forall i :: 0 <= i < |raw| && Trim(raw[i]) != [] ==> Trim(raw[i]) in SlotTitles(raw)
    ensures forall n :: 0 <= n <= |raw| ==> SlotTitles(raw[..n]) <= SlotTitles(raw)
  {
    var t := InfractionDefs.TrimAll(raw);
    InfractionDefs.NonEmptyLinesSpec(t);
    forall n | 0 <= n <= |raw| ensures SlotTitles(raw[..n]) <= SlotTitles(raw) {
      assert InfractionDefs.TrimAll(raw[..n]) == t[..n];
    }
  }

  /** Normalising the kept titles again changes nothing. */
  lemma SlotTitlesIdempotent(raw: seq<string>)
    ensures SlotTitles(SlotTitles(raw)) == SlotTitles(raw)
  {
    var r := SlotTitles(raw);
    var t := InfractionDefs.TrimAll(r);
    forall k | 0 <= k < |r| ensures t[k] == r[k] {
      assert r[k] in InfractionDefs.TrimAll(raw);
      TrimNoEdges(r[k]);
    }
    assert t == r;
    NonEmptyKeeps(r);
  }

  /** Dropping blank entries from a list without any keeps the list. */
  lemma {:induction false} NonEmptyKeeps(ls: seq<string>)
    requires forall k :: 0 <= k < |ls| ==> ls[k] != []
    ensures InfractionDefs.NonEmptyLines(ls) == ls
  {
    if ls != [] {
      NonEmptyKeeps(ls[1..]);
      assert [ls[0]] + ls[1..] == ls;
    }
  }

  /** `save_rotation` after the admin check, with the page load before it: the page
      fetches the rule, creating the default one when none is stored, on every request,
      so a refused save still leaves that rule behind. `kidOrder` and `slotTitles` are
      the posted lists, `None` when the field is not a list. */
  method SaveRotation(db: ChoreDb, kidOrder: Option<seq<string>>, slotTitles: Option<seq<string>>,
                      cfgKids: Option<seq<string>>, cfgSlots: Option<seq<string>>) returns (flash: Flash)
    modifies db`rule, db`slots, db`audit
    ensures kidOrder.None? || kidOrder.value == [] ==>
      flash == FlashErr("Choose a kid order.") &&
      db.rule == Some(Rotation.LoadedRule(old(db.rule), cfgKids, cfgSlots)) &&
      db.slots == old(db.slots) && db.audit == old(db.audit)
    ensures kidOrder.Some? && kidOrder.value != [] ==>
      var names := KidNames(KidIdsOf(kidOrder.value), IdNames(db.kids));
      var slots := SlotTitles(if slotTitles.Some? then slotTitles.value else []);
      var loaded := Rotation.LoadedRule(old(db.rule), cfgKids, cfgSlots);
      (names == [] ==>
        flash == FlashErr("Could not resolve kid names for rotation.") && db.rule == Some(loaded) &&
        db.slots == old(db.slots) && db.audit == old(db.audit)) &&
      (names != [] && slots == [] ==>
        flash == FlashErr("Enter at least one chore slot title.") && db.rule == Some(loaded) &&
        db.slots == old(db.slots) && db.audit == old(db.audit)) &&
      (names != [] && slots != [] ==>
        flash == FlashOk("Rotation settings saved.") &&
        db.rule == Some(RotationRule(loaded.name, names, slots)) &&
        db.slots == Rotation.EnsuredSlots(old(db.slots), slots, |slots|) &&
        db.audit == old(db.audit) + [AuditEntry("admin", 0, "setup_save_rotation")])
  {
    var loaded := Rotation.RuleGetOrCreate(db, cfgKids, cfgSlots);
    assert loaded == Rotation.LoadedRule(old(db.rule), cfgKids, cfgSlots) && db.rule == Some(loaded);
    if kidOrder.None? || kidOrder.value == [] {
      return FlashErr("Choose a kid order.");
    }
    var names := KidNames(KidIdsOf(kidOrder.value), IdNames(db.kids));
    var slots := SlotTitles(if slotTitles.Some? then slotTitles.value else []);
    if names == [] {
      return FlashErr("Could not resolve kid names for rotation.");
    }
    if slots == [] {
      return FlashErr("Enter at least one chore slot title.");
    }
    WriteRotation(db, loaded, names, slots, cfgKids, cfgSlots);
    flash := FlashOk("Rotation settings saved.");
  }

  /** The accepted branch of `save_rotation`: the rule is fetched again (the one the page
      load left), its kids and slots are replaced, each slot title gets a slot, and the
      save is audited. */
  method WriteRotation(db: ChoreDb, loaded: RotationRule, names: seq<string>, slots: seq<string>,
                       cfgKids: Option<seq<string>>, cfgSlots: Option<seq<string>>)
    requires db.rule == Some(loaded)
    modifies db`rule, db`slots, db`audit
    ensures db.rule == Some(RotationRule(loaded.name, names, slots))
    ensures db.slots == Rotation.EnsuredSlots(old(db.slots), slots, |slots|)
    ensures db.audit == old(db.audit) + [AuditEntry("admin", 0, "setup_save_rotation")]
  {
    var rule := Rotation.RuleGetOrCreate(db, cfgKids, cfgSlots);
    db.rule := Some(rule.(kids := names, slots := slots));
    Rotation.EnsureSlotsExist(db, slots);
    db.audit := db.audit + [AuditEntry("admin", 0, "setup_save_rotation")];
  }

  /** The rule's kids that still exist. */
  function KnownNames(ruleKids: seq<string>, actual: seq<string>): (r: seq<string>)
    ensures forall x :: x in r <==> x in ruleKids && x in actual
  {
    if ruleKids == [] then []
    else (if ruleKids[0] in actual then [ruleKids[0]] else []) + KnownNames(ruleKids[1..], actual)
  }

  /** The actual names not among `known`, in their own order. */
  function Missing(actual: seq<string>, known: seq<string>): (r: seq<string>)
    ensures forall x :: x in r <==> x in actual && x !in known
  {
    if actual == [] then []
    else (if actual[0] !in known then [actual[0]] else []) + Missing(actual[1..], known)
  }

  /** The kid order the form starts from: the rule's kids that still exist, then every
      other kid. It names exactly the actual kids. */
  function UiKidsOrder(ruleKids: seq<string>, actual: seq<string>): (r: seq<string>)
    ensures forall x :: x in r <==> x in actual
    ensures |KnownNames(ruleKids, actual)| <= |r| && r[..|KnownNames(ruleKids, actual)|] == KnownNames(ruleKids, actual)
  {
    KnownNames(ruleKids, actual) + Missing(actual, KnownNames(ruleKids, actual))
  }

  /** After saving an order of existing kids, the form shows that order first. */
  lemma {:induction false} SavedOrderShown(saved: seq<string>, actual: seq<string>)
    requires forall k :: 0 <= k < |saved| ==> saved[k] in actual
    ensures |saved| <= |UiKidsOrder(saved, actual)| && UiKidsOrder(saved, actual)[..|saved|] == saved
  {
    KnownAll(saved, actual);
  }

  lemma {:induction false} KnownAll(ruleKids: seq<string>, actual: seq<string>)
    requires forall k :: 0 <= k < |ruleKids| ==> ruleKids[k] in actual
    ensures KnownNames(ruleKids, actual) == ruleKids
  {
    if ruleKids != [] {
      KnownAll(ruleKids[1..], actual);
      assert [ruleKids[0]] + ruleKids[1..] == ruleKids;
    }
  }

  const FallbackSlots := ["Dishes", "Trash + Bathrooms", "Help Cook", "Common Areas", "Help Everybody"]

  /** The slot titles the form shows: the rule's, padded from the fallback list to five
      when there are fewer. */
  function UiSlots(ruleSlots: seq<string>): (r: seq<string>)
    ensures |ruleSlots| >= 5 ==> r == ruleSlots
    ensures |ruleSlots| < 5 ==>
      (|r| == 5 && r[..|ruleSlots|] == ruleSlots &&
       forall k :: |ruleSlots| <= k < 5 ==> r[k] == FallbackSlots[k - |ruleSlots|])
  {
    if |ruleSlots| < 5 then (ruleSlots + FallbackSlots)[..5] else ruleSlots
  }

  /** A set with elements has one to pick. */
  lemma NonEmptyHasMember(s: set<int>)
    requires |s| > 0
    ensures exists x :: x in s
  {
    if forall x :: x !in s {
      assert false;
    }
  }

  /** `COALESCE(MAX(sort_order), 0)` over the bonus definitions. */
  method MaxSortOrder(defs: map<int, BonusDef>) returns (m: int)
    ensures defs == map[] ==> m == 0
    ensures forall id :: id in defs ==> defs[id].sortOrder <= m
    ensures defs != map[] ==> exists id :: id in defs && defs[id].sortOrder == m
  {
    var left := defs.Keys;
    m := 0;
    var seen := false;
    while |left| > 0
      invariant left <= defs.Keys
      invariant seen <==> left != defs.Keys
      invariant seen ==> forall id :: id in defs && id !in left ==> defs[id].sortOrder <= m
      invariant seen ==> exists id :: id in defs && defs[id].sortOrder == m
      invariant !seen ==> m == 0
      decreases |left|
    {
      NonEmptyHasMember(left);
      var k :| k in left;
      if !seen || defs[k].sortOrder > m {
        m := defs[k].sortOrder;
      }
      seen := true;
      left := left - {k};
    }
    if !seen {
      assert defs.Keys == {};
      assert defs == map[];
    }
  }

  /** `add_bonus_def`: a trimmed title is required; the weekly maximum is at least one;
      the new definition is active, rewards nothing, and sorts after every other one. */
  method AddBonusDef(db: ChoreDb, rawTitle: string, rawMax: int) returns (flash: Flash)
    requires db.Valid()
    modifies db`bonusDefs, db`nextBonusDefId, db`audit
    ensures db.Valid()
    ensures Trim(rawTitle) == [] ==>
      flash == FlashErr("Bonus title is required.") && db.bonusDefs == old(db.bonusDefs) &&
      db.nextBonusDefId == old(db.nextBonusDefId) && db.audit == old(db.audit)
    ensures Trim(rawTitle) != [] ==>
      var id := old(db.nextBonusDefId);
      flash == FlashOk("Bonus chore added.") &&
      db.nextBonusDefId == id + 1 && id !in old(db.bonusDefs) &&
      db.bonusDefs.Keys == old(db.bonusDefs).Keys + {id} &&
      (forall j :: j in old(db.bonusDefs) ==> db.bonusDefs[j] == old(db.bonusDefs)[j]) &&
      var d := db.bonusDefs[id];
      d.title == Trim(rawTitle) && d.active && d.rewardCents == 0 && d.rewardPhoneMin == 0 && d.rewardGamesMin == 0 &&
      d.maxPerWeek == Max(1, rawMax) && d.maxPerWeek >= 1 &&
      (forall j :: j in old(db.bonusDefs) ==> old(db.bonusDefs)[j].sortOrder < d.sortOrder) &&
      (old(db.bonusDefs) == map[] ==> d.sortOrder == 1) &&
      (old(db.bonusDefs) != map[] ==> exists j :: j in old(db.bonusDefs) && d.sortOrder == old(db.bonusDefs)[j].sortOrder + 1) &&
      db.audit == old(db.audit) + [AuditEntry("admin", 0, "setup_add_bonus_def")]
  {
    var title := Trim(rawTitle);
    var max := if rawMax < 1 then 1 else rawMax;
    if title == [] {
      return FlashErr("Bonus title is required.");
    }
    var top := MaxSortOrder(db.bonusDefs);
    var id := db.nextBonusDefId;
    db.bonusDefs := db.bonusDefs[id := BonusDef(title, true, 0, 0, 0, max, top + 1)];
    db.nextBonusDefId := id + 1;
    db.audit := db.audit + [AuditEntry("admin", 0, "setup_add_bonus_def")];
    flash := FlashOk("Bonus chore added.");
  }

  const DefaultBonuses := ["Laundry helper", "Vacuum a room", "Wipe down kitchen counters", "Take out recycling",
                           "Help with pet care"]

  /** A default bonus definition: active, no reward, once a week, sorted by position. */
  function DefaultBonus(i: nat): BonusDef
    requires i < |DefaultBonuses|
  {
    BonusDef(DefaultBonuses[i], true, 0, 0, 0, 1, i)
  }

  /** `seed_bonus_defaults`: nothing when any definition exists; otherwise the five
      defaults, with consecutive ids in list order. */
  method SeedBonusDefaults(db: ChoreDb) returns (flash: Flash)
    requires db.Valid()
    modifies db`bonusDefs, db`nextBonusDefId, db`audit
    ensures db.Valid()
    ensures old(db.bonusDefs) != map[] ==>
      flash == FlashOk("Bonus chores already exist (no changes made).") &&
      db.bonusDefs == old(db.bonusDefs) && db.nextBonusDefId == old(db.nextBonusDefId) && db.audit == old(db.audit)
    ensures old(db.bonusDefs) == map[] ==>
      flash == FlashOk("Seeded default bonus chores.") &&
      db.nextBonusDefId == old(db.nextBonusDefId) + |DefaultBonuses| &&
      (forall id :: id in db.bonusDefs <==> old(db.nextBonusDefId) <= id < db.nextBonusDefId) &&
      (forall i :: 0 <= i < |DefaultBonuses| ==> db.bonusDefs[old(db.nextBonusDefId) + i] == DefaultBonus(i)) &&
      db.audit == old(db.audit) + [AuditEntry("admin", 0, "setup_seed_bonus_defaults")]
  {
    if db.bonusDefs != map[] {
      return FlashOk("Bonus chores already exist (no changes made).");
    }
    var start := db.nextBonusDefId;
    var i := 0;
    while i < |DefaultBonuses|
      invariant 0 <= i <= |DefaultBonuses|
      invariant db.nextBonusDefId == start + i
      invariant db.Valid() && db.audit == old(db.audit)
      invariant forall id :: id in db.bonusDefs <==> start <= id < start + i
      invariant forall k :: 0 <= k < i ==> db.bonusDefs[start + k] == DefaultBonus(k)
    {
      db.bonusDefs := db.bonusDefs[start + i := DefaultBonus(i)];
      db.nextBonusDefId := db.nextBonusDefId + 1;
      i := i + 1;
    }
    db.audit := db.audit + [AuditEntry("admin", 0, "setup_seed_bonus_defaults")];
    flash := FlashOk("Seeded default bonus chores.");
  }
}
