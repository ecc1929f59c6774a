/** The admin privileges page (admin/grounding.php): shows each kid's row and saves
    the three lock checkboxes and the three bank fields in one upsert. */
module Grounding {
  import opened Common
  import opened Privileges

  /** `pv_row`: the stored row, or all zeros when the kid has none. */
  function PvRow(rows: map<int, PrivRow>, kid: int): (r: PrivRow)
    ensures kid in rows ==> r == rows[kid]
    ensures kid !in rows ==> r.locked == Zeros && r.bank == Zeros
  {
    RowOf(rows, kid)
  }

  /** The POSTed form: `kid_id` and bank fields after the `(int)` cast, and which lock
      checkboxes were present. */
  datatype Form = Form(kidId: int, phoneChecked: bool, gamesChecked: bool, otherChecked: bool,
                       bankPhone: int, bankGames: int, bankOther: int)

  function Flag(checked: bool): int { if checked then 1 else 0 }

  /** The lock flags the form asks for. */
  function FormLocks(f: Form): (t: Triple<int>)
    ensures t.phone == 1 <==> f.phoneChecked
    ensures t.games == 1 <==> f.gamesChecked
    ensures t.other == 1 <==> f.otherChecked
    ensures forall c :: t.Get(c) == 0 || t.Get(c) == 1
  {
    Triple(Flag(f.phoneChecked), Flag(f.gamesChecked), Flag(f.otherChecked))
  }

  /** The banks the form asks for, negative input clamped to 0. */
  function FormBanks(f: Form): (t: Triple<int>)
    ensures forall c :: t.Get(c) >= 0
    ensures f.bankPhone >= 0 ==> t.phone == f.bankPhone
    ensures f.bankGames >= 0 ==> t.games == f.bankGames
    ensures f.bankOther >= 0 ==> t.other == f.bankOther
  {
    Triple(Max(0, f.bankPhone), Max(0, f.bankGames), Max(0, f.bankOther))
  }

  /** The table after the upsert: a new row gets NULL expiries, an existing row keeps its own. */
  function Upserted(rows: map<int, PrivRow>, f: Form): map<int, PrivRow>
  {
    if f.kidId in rows then rows[f.kidId := rows[f.kidId].(locked := FormLocks(f), bank := FormBanks(f))]
    else rows[f.kidId := PrivRow(FormLocks(f), FormBanks(f), Triple(None, None, None))]
  }

  /** The upsert overwrites exactly the six flag and bank columns of one kid. */
  lemma UpsertFrame(rows: map<int, PrivRow>, f: Form)
    ensures Upserted(rows, f).Keys == rows.Keys + {f.kidId}
    ensures RowOf(Upserted(rows, f), f.kidId).locked == FormLocks(f)
    ensures RowOf(Upserted(rows, f), f.kidId).bank == FormBanks(f)
    ensures RowOf(Upserted(rows, f), f.kidId).until == RowOf(rows, f.kidId).until
    ensures forall k :: k != f.kidId ==> RowOf(Upserted(rows, f), k) == RowOf(rows, k)
  {
  }

  /** The POST handler: writes only for a positive kid id, and redirects either way. */
  method Save(store: PrivilegeStore, f: Form) returns (location: string)
    modifies store
    ensures f.kidId > 0 ==> store.rows == Upserted(old(store.rows), f)
    ensures f.kidId <= 0 ==> store.rows == old(store.rows)
    ensures location == "/admin/grounding.php?saved=1"
  {
    if f.kidId > 0 {
      store.rows := Upserted(store.rows, f);
    }
    location := "/admin/grounding.php?saved=1";
  }
}
