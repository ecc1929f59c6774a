/** The SQLite store behind the JSON-era pages, lib/gb/store.php: JSON columns, the config
    table with its typed keys, whole-table saves of kids and infraction definitions, and the
    event log's limit. */
module Store {
  import opened Common

  /** `gb_json_decode_maybe`: `raw` is the stored value (None for NULL) and `parsed` what
      `json_decode` makes of it (None on a decode error). */
  function JsonDecodeMaybe<T>(raw: Option<string>, parsed: Option<T>, fallback: T): (r: T)
    ensures raw.None? || raw.value == "" || parsed.None? ==> r == fallback
    ensures raw.Some? && raw.value != "" && parsed.Some? ==> r == parsed.value
  {
    if raw.None? || raw.value == "" then fallback
    else if parsed.None? then fallback
    else parsed.value
  }

  /** `gb_json_encode`: `encoded` is what `json_encode` returns (None when it fails). */
  function JsonEncode(encoded: Option<string>): (r: string)
    ensures encoded.None? ==> r == "[]"
    ensures encoded.Some? ==> r == encoded.value
  {
    if encoded.None? then "[]" else encoded.value
  }

  // --- Config ---

  /** A config value: a boolean, a string, or an array (given by its JSON text; "[]" is
      the empty array). */
  datatype ConfigValue = CBool(b: bool) | CText(s: string) | CArr(json: string)

  const JsonKeys: set<string> := {"default_blocks", "favorites_global", "favorites_per_kid", "device_tokens"}
  const BoolKeys: set<string> := {"require_kiosk_token", "require_kid_token", "setup_locked"}

  lemma KeyClassesDisjoint()
    ensures JsonKeys * BoolKeys == {}
  {
    assert forall k :: k in BoolKeys ==> k !in JsonKeys;
  }

  /** One stored row read back into the config built so far. */
  function Interpret(k: string, v: string, cfg: map<string, ConfigValue>, decode: string -> Option<ConfigValue>)
    : (r: ConfigValue)
    ensures k in JsonKeys ==>
      r == (if v != "" && decode(v).Some? then decode(v).value else if k in cfg then cfg[k] else CArr("[]"))
    ensures k !in JsonKeys && k in BoolKeys && v == "1" ==> r == CBool(true)
    ensures k !in JsonKeys && k in BoolKeys && v == "0" ==> r == CBool(false)
    ensures k !in JsonKeys && !(k in BoolKeys && (v == "1" || v == "0")) ==> r == CText(v)
  {
    if k in JsonKeys then JsonDecodeMaybe(Some(v), decode(v), if k in cfg then cfg[k] else CArr("[]"))
    else if v == "1" && k in BoolKeys then CBool(true)
    else if v == "0" && k in BoolKeys then CBool(false)
    else CText(v)
  }

  /** The config after folding in `rows` in order; rows with an empty key are skipped. */
  function ConfigFold(cfg: map<string, ConfigValue>, rows: seq<(string, string)>, decode: string -> Option<ConfigValue>)
    : (r: map<string, ConfigValue>)
    ensures cfg.Keys <= r.Keys
  {
    if rows == [] then cfg
    else
      var prev := ConfigFold(cfg, rows[..|rows| - 1], decode);
      var (k, v) := rows[|rows| - 1];
      if k == "" then prev else prev[k := Interpret(k, v, prev, decode)]
  }

  /** `gb_get_config`: the fallback config when the store is not set up, otherwise the
      fallback with every stored row folded in. */
  method GetConfig(ready: bool, fallback: map<string, ConfigValue>, rows: seq<(string, string)>,
                   decode: string -> Option<ConfigValue>) returns (cfg: map<string, ConfigValue>)
    ensures !ready ==> cfg == fallback
    ensures ready ==> cfg == ConfigFold(fallback, rows, decode)
  {
    if !ready {
      return fallback;
    }
    cfg := fallback;
    var i := 0;
    while i < |rows|
      invariant 0 <= i <= |rows|
      invariant cfg == ConfigFold(fallback, rows[..i], decode)
    {
      assert rows[..i + 1][..i] == rows[..i];
      var (k, v) := rows[i];
      if k != "" {
        cfg := cfg[k := Interpret(k, v, cfg, decode)];
      }
      i := i + 1;
    }
    assert rows[..|rows|] == rows;
  }

  predicate DistinctKeys(rows: seq<(string, string)>)
  {
    forall i, j :: 0 <= i < j < |rows| ==> rows[i].0 != rows[j].0
  }

  /** A key no row names keeps its fallback entry, or its absence. */
  lemma {:induction false} ConfigFoldOther(fallback: map<string, ConfigValue>, rows: seq<(string, string)>,
                                           decode: string -> Option<ConfigValue>, k: string)
    requires forall i :: 0 <= i < |rows| ==> rows[i].0 != k
    ensures k in ConfigFold(fallback, rows, decode) <==> k in fallback
    ensures k in fallback ==> ConfigFold(fallback, rows, decode)[k] == fallback[k]
  {
    if rows != [] {
      var n := |rows| - 1;
      assert forall i :: 0 <= i < n ==> rows[..n][i] == rows[i];
      ConfigFoldOther(fallback, rows[..n], decode, k);
    }
  }

  /** With the table's distinct keys, each stored row decides its key against the fallback
      alone, whatever the order of the rows. */
  lemma {:induction false} ConfigFoldAt(fallback: map<string, ConfigValue>, rows: seq<(string, string)>,
                                        decode: string -> Option<ConfigValue>, i: int)
    requires DistinctKeys(rows) && 0 <= i < |rows| && rows[i].0 != ""
    ensures rows[i].0 in ConfigFold(fallback, rows, decode)
    ensures ConfigFold(fallback, rows, decode)[rows[i].0] == Interpret(rows[i].0, rows[i].1, fallback, decode)
  {
    var n := |rows| - 1;
    var prev := ConfigFold(fallback, rows[..n], decode);
    assert forall j :: 0 <= j < n ==> rows[..n][j] == rows[j];
    if i == n {
      ConfigFoldOther(fallback, rows[..n], decode, rows[i].0);
    } else {
      ConfigFoldAt(fallback, rows[..n], decode, i);
    }
  }

  /** An empty key never enters the config. */
  lemma {:induction false} EmptyKeySkipped(fallback: map<string, ConfigValue>, rows: seq<(string, string)>,
                                           decode: string -> Option<ConfigValue>)
    requires "" !in fallback
    ensures "" !in ConfigFold(fallback, rows, decode)
  {
    if rows != [] {
      EmptyKeySkipped(fallback, rows[..|rows| - 1], decode);
    }
  }

  /** PHP truthiness of a config value. */
  predicate Truthy(v: ConfigValue)
  {
    match v
    case CBool(b) => b
    case CText(s) => s != "" && s != "0"
    case CArr(j) => j != "[]"
  }

  /** The text `gb_set_config` stores for a key; `encode` is `json_encode`. */
  function Stored(key: string, value: ConfigValue, encode: ConfigValue -> Option<string>): (r: string)
    ensures key in JsonKeys ==> r == JsonEncode(encode(value))
    ensures key !in JsonKeys && key in BoolKeys ==> r == (if Truthy(value) then "1" else "0")
  {
    if key in JsonKeys then JsonEncode(encode(value))
    else if key in BoolKeys then (if Truthy(value) then "1" else "0")
    else
      match value
      case CBool(b) => if b then "1" else ""
      case CText(s) => s
      case CArr(_) => "Array"
  }

  /** The `gb_config` table. */
  class ConfigTable {
    var rows: map<string, string>

    constructor ()
      ensures rows == map[]
    {
      rows := map[];
    }

    /** `gb_set_config`: an upsert of the key's stored text. */
    method SetConfig(key: string, value: ConfigValue, encode: ConfigValue -> Option<string>)
      modifies this
      ensures rows == old(rows)[key := Stored(key, value, encode)]
    {
      rows := rows[key := Stored(key, value, encode)];
    }
  }

  /** `rows` is what the query returns for the table `table`: each entry once, in some order. */
  predicate Lists(rows: seq<(string, string)>, table: map<string, string>)
  {
    DistinctKeys(rows) &&
    (forall i :: 0 <= i < |rows| ==> rows[i].0 in table && table[rows[i].0] == rows[i].1) &&
    (forall k :: k in table ==> exists i :: 0 <= i < |rows| && rows[i].0 == k)
  }

  /** A boolean key set to any value reads back as that value's truthiness, in whatever
      order the table is listed. */
  lemma SetGetBool(table: map<string, string>, key: string, value: ConfigValue, encode: ConfigValue -> Option<string>,
                   rows: seq<(string, string)>, fallback: map<string, ConfigValue>, decode: string -> Option<ConfigValue>)
    requires key in BoolKeys
    requires Lists(rows, table[key := Stored(key, value, encode)])
    ensures key in ConfigFold(fallback, rows, decode)
    ensures ConfigFold(fallback, rows, decode)[key] == CBool(Truthy(value))
  {
    KeyClassesDisjoint();
    assert key !in JsonKeys;
    var table' := table[key := Stored(key, value, encode)];
    assert key in table';
    var i :| 0 <= i < |rows| && rows[i].0 == key;
    ConfigFoldAt(fallback, rows, decode, i);
    assert rows[i].1 == Stored(key, value, encode);
  }

  // --- Kids ---

  /** A kid entry handed to `gb_save_kids`: missing strings read as '', and each JSON
      column as what `json_encode` makes of the value (None when it fails; a missing
      value is the empty list). */
  datatype RawKid = RawKid(name: string, groundedStart: string, groundedUntil: string, reason: string,
                           reviewOn: string, lastInfraction: string,
                           blocksJson: Option<string>, strikesJson: Option<string>)

  datatype KidRow = KidRow(name: string, groundedStart: string, groundedUntil: string, reason: string,
                           reviewOn: string, lastInfraction: string, blocksJson: string, strikesJson: string)

  function KidRowOf(k: RawKid): KidRow
  {
    KidRow(Trim(k.name), k.groundedStart, k.groundedUntil, k.reason, k.reviewOn, k.lastInfraction,
           JsonEncode(k.blocksJson), JsonEncode(k.strikesJson))
  }

  predicate KeptKid(k: Option<RawKid>) { k.Some? && Trim(k.value.name) != [] }

  /** The rows a save leaves: entries that are not arrays, or whose trimmed name is empty,
      are dropped; the others are inserted in order with the name trimmed. */
  function SavedKids(kids: seq<Option<RawKid>>): (r: seq<KidRow>)
    ensures |r| <= |kids|
  {
    if kids == [] then []
    else
      var last := kids[|kids| - 1];
      SavedKids(kids[..|kids| - 1]) + (if KeptKid(last) then [KidRowOf(last.value)] else [])
  }

  /** Saved names are non-empty and trimmed. */
  lemma {:induction false} SavedKidsNames(kids: seq<Option<RawKid>>)
    ensures forall i :: 0 <= i < |SavedKids(kids)| ==>
      SavedKids(kids)[i].name != [] && Trim(SavedKids(kids)[i].name) == SavedKids(kids)[i].name
  {
    if kids != [] {
      SavedKidsNames(kids[..|kids| - 1]);
      var last := kids[|kids| - 1];
      if KeptKid(last) {
        TrimNoEdges(Trim(last.value.name));
      }
    }
  }

  /** Every kept entry is saved as its row. */
  lemma {:induction false} SavedKidsSpec(kids: seq<Option<RawKid>>)
    ensures forall i :: 0 <= i < |kids| && KeptKid(kids[i]) ==> KidRowOf(kids[i].value) in SavedKids(kids)
  {
    if kids != [] {
      var n := |kids| - 1;
      SavedKidsSpec(kids[..n]);
      forall i | 0 <= i < n && KeptKid(kids[i])
        ensures KidRowOf(kids[i].value) in SavedKids(kids)
      {
        assert kids[..n][i] == kids[i];
      }
    }
  }

  /** Every saved row comes from a kept entry, and the rows keep the entries' order:
      what the first `n` entries save is a prefix of what all of them save. */
  lemma {:induction false} SavedKidsOrder(kids: seq<Option<RawKid>>)
    ensures forall r :: r in SavedKids(kids) ==>
      exists i :: 0 <= i < |kids| && KeptKid(kids[i]) && r == KidRowOf(kids[i].value)
    ensures forall n :: 0 <= n <= |kids| ==> SavedKids(kids[..n]) <= SavedKids(kids)
  {
    if kids != [] {
      var n := |kids| - 1;
      SavedKidsOrder(kids[..n]);
      forall r | r in SavedKids(kids)
        ensures exists i :: 0 <= i < |kids| && KeptKid(kids[i]) && r == KidRowOf(kids[i].value)
      {
        if r in SavedKids(kids[..n]) {
          var i :| 0 <= i < n && KeptKid(kids[..n][i]) && r == KidRowOf(kids[..n][i].value);
          assert kids[..n][i] == kids[i];
        } else {
          assert r == KidRowOf(kids[n].value);
        }
      }
      forall m | 0 <= m <= |kids|
        ensures SavedKids(kids[..m]) <= SavedKids(kids)
      {
        if m == |kids| {
          assert kids[..m] == kids;
        } else {
          assert kids[..n][..m] == kids[..m];
        }
      }
    }
  }

  /** A row as the load reads it back, its JSON columns re-encoding to themselves. */
  function Reloaded(r: KidRow): RawKid
  {
    RawKid(r.name, r.groundedStart, r.groundedUntil, r.reason, r.reviewOn, r.lastInfraction,
           Some(r.blocksJson), Some(r.strikesJson))
  }

  function ReloadedAll(rows: seq<KidRow>): (r: seq<Option<RawKid>>)
    ensures |r| == |rows|
  {
    if rows == [] then [] else ReloadedAll(rows[..|rows| - 1]) + [Some(Reloaded(rows[|rows| - 1]))]
  }

  /** Saving what was loaded changes nothing. */
  lemma {:induction false} SaveKidsIdempotent(kids: seq<Option<RawKid>>)
    ensures SavedKids(ReloadedAll(SavedKids(kids))) == SavedKids(kids)
  {
    SavedKidsNames(kids);
    ReloadedFixed(SavedKids(kids));
  }

  lemma {:induction false} ReloadedFixed(rows: seq<KidRow>)
    requires forall i :: 0 <= i < |rows| ==> rows[i].name != [] && Trim(rows[i].name) == rows[i].name
    ensures SavedKids(ReloadedAll(rows)) == rows
  {
    if rows != [] {
      var n := |rows| - 1;
      assert ReloadedAll(rows)[..n] == ReloadedAll(rows[..n]);
      ReloadedFixed(rows[..n]);
      assert rows[..n] + [rows[n]] == rows;
    }
  }

  /** The `name` column is UNIQUE: no two rows carry the same name. */
  predicate DistinctNames(rows: seq<KidRow>)
  {
    forall i, j :: 0 <= i < j < |rows| ==> rows[i].name != rows[j].name
  }

  /** The `gb_kids` table. */
  class KidTable {
    var rows: seq<KidRow>

    constructor ()
      ensures rows == []
    {
      rows := [];
    }

    /** `gb_save_kids`: in one transaction, every row is deleted and the entries are
        inserted; `dbFails` is a failure of any other statement, and an insert that
        repeats a name breaks the UNIQUE constraint; either rolls back. */
    method SaveKids(kids: seq<Option<RawKid>>, dbFails: bool) returns (ok: bool)
      modifies this
      ensures ok == (!dbFails && DistinctNames(SavedKids(kids)))
      ensures ok ==> rows == SavedKids(kids) && DistinctNames(rows)
      ensures !ok ==> rows == old(rows)
    {
      var built: seq<KidRow> := [];
      var i := 0;
      while i < |kids|
        invariant 0 <= i <= |kids|
        invariant built == SavedKids(kids[..i])
      {
        assert kids[..i + 1][..i] == kids[..i];
        var k := kids[i];
        if k.Some? {
          var name := Trim(k.value.name);
          if name != [] {
            built := built + [KidRowOf(k.value)];
          }
        }
        i := i + 1;
      }
      assert kids[..|kids|] == kids;
      if dbFails || !DistinctNames(built) {
        return false;
      }
      rows := built;
      ok := true;
    }
  }

  // --- Infraction definitions ---

  /** An entry handed to `gb_save_infractions`: strings missing read as '', `mode` as
      "set", the integers after the cast, the JSON columns as in `RawKid`. */
  datatype RawInfraction = RawInfraction(id: string, title: string, days: int, mode: string,
                                         blocksJson: Option<string>, ladderJson: Option<string>,
                                         repairsJson: Option<string>, reviewDays: int)

  datatype InfractionRow = InfractionRow(id: string, title: string, days: int, mode: string,
                                         blocksJson: string, ladderJson: string, repairsJson: string, reviewDays: int)

  function InfractionRowOf(d: RawInfraction): InfractionRow
  {
    InfractionRow(Trim(d.id), Trim(d.title), d.days, if d.mode == "add" then "add" else "set",
                  JsonEncode(d.blocksJson), JsonEncode(d.ladderJson), JsonEncode(d.repairsJson), d.reviewDays)
  }

  predicate KeptInfraction(d: Option<RawInfraction>)
  {
    d.Some? && Trim(d.value.id) != [] && Trim(d.value.title) != []
  }

  /** The rows a save leaves: entries without an id or a label after trimming are dropped. */
  function SavedInfractions(defs: seq<Option<RawInfraction>>): (r: seq<InfractionRow>)
    ensures |r| <= |defs|
  {
    if defs == [] then []
    else
      var last := defs[|defs| - 1];
      SavedInfractions(defs[..|defs| - 1]) + (if KeptInfraction(last) then [InfractionRowOf(last.value)] else [])
  }

  /** Every saved definition has a non-empty id and label and a mode of "add" or "set";
      the mode is "add" exactly when the entry said "add". */
  lemma {:induction false} SavedInfractionsSpec(defs: seq<Option<RawInfraction>>)
    ensures forall i :: 0 <= i < |SavedInfractions(defs)| ==>
      var r := SavedInfractions(defs)[i];
      r.id != [] && r.title != [] && (r.mode == "add" || r.mode == "set")
    ensures forall i :: 0 <= i < |defs| && KeptInfraction(defs[i]) ==>
      InfractionRowOf(defs[i].value) in SavedInfractions(defs)
  {
    if defs != [] {
      var n := |defs| - 1;
      SavedInfractionsSpec(defs[..n]);
      forall i | 0 <= i < n && KeptInfraction(defs[i])
        ensures InfractionRowOf(defs[i].value) in SavedInfractions(defs)
      {
        assert defs[..n][i] == defs[i];
      }
    }
  }

  /** Every saved definition comes from a kept entry, and the rows keep the entries'
      order: what the first `n` entries save is a prefix of what all of them save. */
  lemma {:induction false} SavedInfractionsOrder(defs: seq<Option<RawInfraction>>)
    ensures forall r :: r in SavedInfractions(defs) ==>
      exists i :: 0 <= i < |defs| && KeptInfraction(defs[i]) && r == InfractionRowOf(defs[i].value)
    ensures forall n :: 0 <= n <= |defs| ==> SavedInfractions(defs[..n]) <= SavedInfractions(defs)
  {
    if defs != [] {
      var n := |defs| - 1;
      SavedInfractionsOrder(defs[..n]);
      forall r | r in SavedInfractions(defs)
        ensures exists i :: 0 <= i < |defs| && KeptInfraction(defs[i]) && r == InfractionRowOf(defs[i].value)
      {
        if r in SavedInfractions(defs[..n]) {
          var i :| 0 <= i < n && KeptInfraction(defs[..n][i]) && r == InfractionRowOf(defs[..n][i].value);
          assert defs[..n][i] == defs[i];
        } else {
          assert r == InfractionRowOf(defs[n].value);
        }
      }
      forall m | 0 <= m <= |defs|
        ensures SavedInfractions(defs[..m]) <= SavedInfractions(defs)
      {
        if m == |defs| {
          assert defs[..m] == defs;
        } else {
          assert defs[..n][..m] == defs[..m];
        }
      }
    }
  }

  /** The `id` column is the primary key: no two rows carry the same id. */
  predicate DistinctIds(rows: seq<InfractionRow>)
  {
    forall i, j :: 0 <= i < j < |rows| ==> rows[i].id != rows[j].id
  }

  /** The `gb_infractions` table. */
  class InfractionTable {
    var rows: seq<InfractionRow>

    constructor ()
      ensures rows == []
    {
      rows := [];
    }

    /** `gb_save_infractions`: the same whole-table replacement as the kids'; an
        insert that repeats an id breaks the primary key and rolls back. */
    method SaveInfractions(defs: seq<Option<RawInfraction>>, dbFails: bool) returns (ok: bool)
      modifies this
      ensures ok == (!dbFails && DistinctIds(SavedInfractions(defs)))
      ensures ok ==> rows == SavedInfractions(defs) && DistinctIds(rows)
      ensures !ok ==> rows == old(rows)
    {
      var built: seq<InfractionRow> := [];
      var i := 0;
      while i < |defs|
        invariant 0 <= i <= |defs|
        invariant built == SavedInfractions(defs[..i])
      {
        assert defs[..i + 1][..i] == defs[..i];
        var d := defs[i];
        if d.Some? {
          var id := Trim(d.value.id);
          var title := Trim(d.value.title);
          if id != [] && title != [] {
            built := built + [InfractionRowOf(d.value)];
          }
        }
        i := i + 1;
      }
      assert defs[..|defs|] == defs;
      if dbFails || !DistinctIds(built) {
        return false;
      }
      rows := built;
      ok := true;
    }
  }

  // --- Events ---

  /** The number of events `gb_load_events` asks for (150 by default). */
  function EventLimit(limit: int): (r: int)
    ensures 1 <= r <= 1000
    ensures 1 <= limit <= 1000 ==> r == limit
    ensures limit < 1 ==> r == 1
    ensures limit > 1000 ==> r == 1000
  {
    Max(1, Min(1000, limit))
  }

  /** `gb_load_events`: `newestFirst` is the log in descending id order. */
  function LoadEvents<E>(ready: bool, newestFirst: seq<E>, limit: int): (r: seq<E>)
    ensures !ready ==> r == []
    ensures ready ==> |r| == Min(|newestFirst|, EventLimit(limit)) && r == newestFirst[..|r|]
  {
    if !ready then [] else newestFirst[..Min(|newestFirst|, EventLimit(limit))]
  }
}
