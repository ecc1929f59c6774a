/** The per-kid privilege record of lib/privileges.php: three lock flags, three
    banked-minute counters and three lock expiries, one row per kid, created lazily.
    The expiry helpers the engine calls (`gb2_priv_set_lock_until`,
    `gb2_priv_add_lock_minutes`, `gb2_priv_parse_until`, `gb2_priv_iso_from_ts`) are
    not part of the shown source; they appear here through the contracts their callers
    rely on, with timestamps as integer seconds instead of ISO strings. */
module Privileges {
  import opened Common

  /** One row of the `privileges` table. `until` holds the `*_locked_until` columns
      (None for NULL); lock flags and banks are the integer columns. */
  datatype PrivRow = PrivRow(locked: Triple<int>, bank: Triple<int>, until: Triple<Option<int>>)

  const Zeros: Triple<int> := Triple(0, 0, 0)

  /** The row `INSERT OR IGNORE INTO privileges(kid_id)` creates: column defaults. */
  const DefaultRow: PrivRow := PrivRow(Zeros, Zeros, Triple(None, None, None))

  /** What a read of a kid's row yields: the stored row, or the all-zero fallback. */
  function RowOf(rows: map<int, PrivRow>, kid: int): (r: PrivRow)
    ensures kid in rows ==> r == rows[kid]
    ensures kid !in rows ==> forall c :: r.locked.Get(c) == 0 && r.bank.Get(c) == 0 && r.until.Get(c) == None
  {
    if kid in rows then rows[kid] else DefaultRow
  }

  /** The table after `gb2_priv_ensure_row`. */
  function Ensured(rows: map<int, PrivRow>, kid: int): map<int, PrivRow>
  {
    if kid in rows then rows else rows[kid := DefaultRow]
  }

  /** Ensuring a row adds exactly that kid, is idempotent, and changes no kid's view. */
  lemma EnsuredSpec(rows: map<int, PrivRow>, kid: int)
    ensures Ensured(rows, kid).Keys == rows.Keys + {kid}
    ensures Ensured(Ensured(rows, kid), kid) == Ensured(rows, kid)
    ensures forall k :: RowOf(Ensured(rows, kid), k) == RowOf(rows, k)
  {
  }

  /** The table after `gb2_priv_set_locks`. */
  function LocksSet(rows: map<int, PrivRow>, kid: int, phone: int, games: int, other: int): map<int, PrivRow>
  {
    rows[kid := RowOf(rows, kid).(locked := Triple(phone, games, other))]
  }

  /** The table after `gb2_priv_set_banks`. */
  function BanksSet(rows: map<int, PrivRow>, kid: int, phone: int, games: int, other: int): map<int, PrivRow>
  {
    rows[kid := RowOf(rows, kid).(bank := Triple(phone, games, other))]
  }

  /** The table after `gb2_priv_apply_bonus`. */
  function BonusApplied(rows: map<int, PrivRow>, kid: int, phoneMin: int, gamesMin: int): map<int, PrivRow>
  {
    var row := RowOf(rows, kid);
    rows[kid := row.(bank := Triple(row.bank.phone + phoneMin, row.bank.games + gamesMin, row.bank.other))]
  }

  /** A manual lock toggle sets the three flags and nothing else: it clears no expiry,
      so unlocking by hand leaves a stale `*_locked_until` behind. */
  lemma SetLocksFrame(rows: map<int, PrivRow>, kid: int, phone: int, games: int, other: int)
    ensures var r := RowOf(LocksSet(rows, kid, phone, games, other), kid);
      r.locked == Triple(phone, games, other) && r.bank == RowOf(rows, kid).bank && r.until == RowOf(rows, kid).until
    ensures forall k :: k != kid ==> RowOf(LocksSet(rows, kid, phone, games, other), k) == RowOf(rows, k)
  {
  }

  /** Setting banks changes the three banks and nothing else. */
  lemma SetBanksFrame(rows: map<int, PrivRow>, kid: int, phone: int, games: int, other: int)
    ensures var r := RowOf(BanksSet(rows, kid, phone, games, other), kid);
      r.bank == Triple(phone, games, other) && r.locked == RowOf(rows, kid).locked && r.until == RowOf(rows, kid).until
    ensures forall k :: k != kid ==> RowOf(BanksSet(rows, kid, phone, games, other), k) == RowOf(rows, k)
  {
  }

  /** A bonus credits the phone and games banks; the other bank, locks and expiries stay,
      and so does every other kid's row. */
  lemma ApplyBonusFrame(rows: map<int, PrivRow>, kid: int, phoneMin: int, gamesMin: int)
    ensures var r := RowOf(BonusApplied(rows, kid, phoneMin, gamesMin), kid);
      var r0 := RowOf(rows, kid);
      r.bank.phone == r0.bank.phone + phoneMin && r.bank.games == r0.bank.games + gamesMin &&
      r.bank.other == r0.bank.other && r.locked == r0.locked && r.until == r0.until
    ensures forall k :: k != kid ==> RowOf(BonusApplied(rows, kid, phoneMin, gamesMin), k) == RowOf(rows, k)
  {
  }

  /** `gb2_priv_parse_until`: a stored expiry as a timestamp, 0 when the column is NULL. */
  function ParseUntil(u: Option<int>): int
  {
    match u
    case None => 0
    case Some(t) => t
  }

  /** The row after `gb2_priv_set_lock_until(kid, c, until)`: a timestamp locks the
      category until then, NULL unlocks it. */
  function WithLockUntil(row: PrivRow, c: Category, until: Option<int>): (r: PrivRow)
    ensures r.until.Get(c) == until
    ensures r.locked.Get(c) == (if until.Some? then 1 else 0)
    ensures r.bank == row.bank
    ensures forall d :: d != c ==> r.locked.Get(d) == row.locked.Get(d) && r.until.Get(d) == row.until.Get(d)
  {
    row.(locked := row.locked.With(c, if until.Some? then 1 else 0), until := row.until.With(c, until))
  }

  /** Pending per-category expiry writes, as a loop over the categories issues them:
      `Some(u)` stores `u` through `gb2_priv_set_lock_until` (`u == None` unlocks), `None`
      leaves the category alone. */
  type Writes = Triple<Option<Option<int>>>

  function NewLock(row: PrivRow, w: Writes, c: Category): int
  {
    if w.Get(c).Some? then (if w.Get(c).value.Some? then 1 else 0) else row.locked.Get(c)
  }

  function NewUntil(row: PrivRow, w: Writes, c: Category): Option<int>
  {
    if w.Get(c).Some? then w.Get(c).value else row.until.Get(c)
  }

  /** A row after the writes `w`: each written category takes its new expiry and the
      matching lock flag; unwritten categories and the banks stay. */
  function Overwritten(row: PrivRow, w: Writes): (r: PrivRow)
    ensures r.bank == row.bank
    ensures forall c :: w.Get(c).Some? ==> r.until.Get(c) == w.Get(c).value && r.locked.Get(c) == (if w.Get(c).value.Some? then 1 else 0)
    ensures forall c :: w.Get(c).None? ==> r.until.Get(c) == row.until.Get(c) && r.locked.Get(c) == row.locked.Get(c)
  {
    PrivRow(Triple(NewLock(row, w, Phone), NewLock(row, w, Games), NewLock(row, w, Other)),
            row.bank,
            Triple(NewUntil(row, w, Phone), NewUntil(row, w, Games), NewUntil(row, w, Other)))
  }

  /** The writes a loop has issued after visiting the first `i` categories. */
  function Upto(w: Writes, i: int): (v: Writes)
    ensures forall c :: v.Get(c) == (if CatIndex(c) < i then w.Get(c) else None)
  {
    Triple(if 0 < i then w.phone else None, if 1 < i then w.games else None, if 2 < i then w.other else None)
  }

  predicate AnyWrite(w: Writes)
  {
    w.phone.Some? || w.games.Some? || w.other.Some?
  }

  /** The table after a loop has visited the first `i` categories of the writes `w` for
      one kid: untouched while nothing has been written. */
  function WritesApplied(rows: map<int, PrivRow>, kid: int, w: Writes, i: int): map<int, PrivRow>
  {
    if AnyWrite(Upto(w, i)) then rows[kid := Overwritten(RowOf(rows, kid), Upto(w, i))] else rows
  }

  /** One step of such a loop: visiting `Categories[i]` stores its write, if any, on top
      of the earlier ones, and the category still holds its expiry from before the loop. */
  lemma WritesStep(rows: map<int, PrivRow>, kid: int, w: Writes, i: nat)
    requires i < 3
    ensures var c := Categories[i];
      var cur := WritesApplied(rows, kid, w, i);
      RowOf(cur, kid).until.Get(c) == RowOf(rows, kid).until.Get(c) &&
      (w.Get(c).Some? ==> WritesApplied(rows, kid, w, i + 1) == cur[kid := WithLockUntil(RowOf(cur, kid), c, w.Get(c).value)]) &&
      (w.Get(c).None? ==> WritesApplied(rows, kid, w, i + 1) == cur)
  {
  }

  /** After all three categories, every written category holds its write, every other
      category, the banks and every other kid are as before. */
  lemma {:induction false} WritesAppliedSpec(rows: map<int, PrivRow>, kid: int, w: Writes)
    ensures forall k :: k != kid ==> RowOf(WritesApplied(rows, kid, w, 3), k) == RowOf(rows, k)
    ensures RowOf(WritesApplied(rows, kid, w, 3), kid) == Overwritten(RowOf(rows, kid), w)
  {
    assert Upto(w, 3) == w;
    if !AnyWrite(w) {
      var r := RowOf(rows, kid);
      assert Overwritten(r, w).locked == r.locked;
      assert Overwritten(r, w).until == r.until;
    }
  }

  /** The expiry `gb2_priv_add_lock_minutes` produces: the duration stacks on whichever
      is later, now or the current expiry. */
  function StackedUntil(now: int, cur: Option<int>, minutes: int): (r: int)
    ensures r >= now + minutes * 60
    ensures r >= ParseUntil(cur) + minutes * 60
    ensures r == now + minutes * 60 || r == ParseUntil(cur) + minutes * 60
  {
    Max(now, ParseUntil(cur)) + minutes * 60
  }

  /** Two add-mode stacks in a row equal one stack of the summed duration. */
  lemma StackTwice(now: int, cur: Option<int>, m1: int, m2: int)
    requires m1 >= 0
    ensures StackedUntil(now, Some(StackedUntil(now, cur, m1)), m2) == StackedUntil(now, cur, m1 + m2)
  {
  }

  /** An expiry already in the past is ignored: stacking starts from now. */
  lemma StackAfterExpiry(now: int, cur: Option<int>, m: int)
    requires ParseUntil(cur) <= now
    ensures StackedUntil(now, cur, m) == now + m * 60
  {
  }

  /** The `privileges` table. */
  class PrivilegeStore {
    var rows: map<int, PrivRow>

    constructor ()
      ensures rows == map[]
    {
      rows := map[];
    }

    /** `gb2_priv_ensure_row`: INSERT OR IGNORE of a default row. */
    method EnsureRow(kid: int)
      modifies this
      ensures rows == Ensured(old(rows), kid)
    {
      if kid !in rows {
        rows := rows[kid := DefaultRow];
      }
    }

    /** `gb2_priv_get_for_kid`: ensures the row, then reads it. It clears no expiry:
        there is no read-time auto-unlock. */
    method GetForKid(kid: int) returns (r: PrivRow)
      modifies this
      ensures rows == Ensured(old(rows), kid)
      ensures r == RowOf(old(rows), kid)
      ensures kid in rows && r == rows[kid]
    {
      EnsureRow(kid);
      r := if kid in rows then rows[kid] else DefaultRow;
    }

    /** `gb2_priv_set_locks`. */
    method SetLocks(kid: int, phone: int, games: int, other: int)
      modifies this
      ensures rows == LocksSet(old(rows), kid, phone, games, other)
    {
      EnsureRow(kid);
      rows := rows[kid := rows[kid].(locked := Triple(phone, games, other))];
    }

    /** `gb2_priv_set_banks`. */
    method SetBanks(kid: int, phone: int, games: int, other: int)
      modifies this
      ensures rows == BanksSet(old(rows), kid, phone, games, other)
    {
      EnsureRow(kid);
      rows := rows[kid := rows[kid].(bank := Triple(phone, games, other))];
    }

    /** `gb2_priv_apply_bonus`. */
    method ApplyBonus(kid: int, phoneMin: int, gamesMin: int)
      modifies this
      ensures rows == BonusApplied(old(rows), kid, phoneMin, gamesMin)
    {
      EnsureRow(kid);
      var row := rows[kid];
      rows := rows[kid := row.(bank := Triple(row.bank.phone + phoneMin, row.bank.games + gamesMin, row.bank.other))];
    }

    /** `gb2_priv_set_lock_until` (not shown): stores the expiry of one category and
        returns what it stored. */
    method SetLockUntil(kid: int, c: Category, until: Option<int>) returns (stored: Option<int>)
      modifies this
      ensures stored == until
      ensures rows == old(rows)[kid := WithLockUntil(RowOf(old(rows), kid), c, until)]
    {
      rows := rows[kid := WithLockUntil(RowOf(rows, kid), c, until)];
      stored := until;
    }

    /** `gb2_priv_add_lock_minutes` (not shown): stacks `minutes` onto the later of now
        and the category's current expiry, locks the category, and returns the new expiry. */
    method AddLockMinutes(kid: int, c: Category, minutes: int, now: int) returns (newUntil: int)
      modifies this
      ensures newUntil == StackedUntil(now, RowOf(old(rows), kid).until.Get(c), minutes)
      ensures rows == old(rows)[kid := WithLockUntil(RowOf(old(rows), kid), c, Some(newUntil))]
    {
      var row := RowOf(rows, kid);
      newUntil := StackedUntil(now, row.until.Get(c), minutes);
      rows := rows[kid := WithLockUntil(row, c, Some(newUntil))];
    }
  }
}
