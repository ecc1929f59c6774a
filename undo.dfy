/** The one-step undo of the kids table, lib/gb/undo.php: a snapshot kept in the session
    for a short time, restored through the store's whole-table save. */
module Undo {
  import opened Common
  import Store

  /** `$_SESSION['gb_undo']`: a snapshot array, or some other value. In a snapshot `ts` is
      read after the int cast (missing reads 0), `label` may be missing, and `kidsJson` is
      the stored kids list as JSON text (missing reads ''). */
  datatype UndoSlot = NotSnapshot | Snapshot(ts: int, caption: Option<string>, kidsJson: string)

  /** The default window, in seconds. */
  const DefaultSeconds := 120

  /** `gb_undo_available`: a snapshot with a positive time no older than `seconds`. */
  predicate Available(slot: Option<UndoSlot>, now: int, seconds: int)
  {
    slot.Some? && slot.value.Snapshot? && slot.value.ts > 0 && now - slot.value.ts <= seconds
  }

  /** `gb_get_undo_label`: '' unless a snapshot carries a label. */
  function Label(slot: Option<UndoSlot>): (r: string)
    ensures slot.None? || slot.value.NotSnapshot? || slot.value.caption.None? ==> r == ""
    ensures slot.Some? && slot.value.Snapshot? && slot.value.caption.Some? ==> r == slot.value.caption.value
  {
    if slot.Some? && slot.value.Snapshot? && slot.value.caption.Some? then slot.value.caption.value else ""
  }

  class UndoSession {
    var slot: Option<UndoSlot>

    constructor ()
      ensures slot == None
    {
      slot := None;
    }

    /** `gb_set_undo_snapshot`: `kidsJson` is the kids list as `gb_json_encode` writes it. */
    method SetSnapshot(kidsJson: string, caption: string, now: int)
      modifies this
      ensures slot == Some(Snapshot(now, Some(caption), kidsJson))
      ensures now > 0 ==> Available(slot, now, DefaultSeconds) && Label(slot) == caption
    {
      slot := Some(Snapshot(now, Some(caption), kidsJson));
    }

    /** `gb_apply_undo`, with the default window: `decode` is `json_decode` on the stored
        text (NotArray when the text is not a JSON list), `dbFails` a failure of the save. */
    method ApplyUndo(kids: Store.KidTable, now: int, decode: string -> Decoded<seq<Option<Store.RawKid>>>,
                     dbFails: bool) returns (ok: bool)
      modifies kids
      ensures !Available(slot, now, DefaultSeconds) ==> !ok && kids.rows == old(kids.rows)
      ensures Available(slot, now, DefaultSeconds) && decode(slot.value.kidsJson).NotArray? ==>
        !ok && kids.rows == old(kids.rows)
      ensures Available(slot, now, DefaultSeconds) && decode(slot.value.kidsJson).Arr? ==>
        ok == (!dbFails && Store.DistinctNames(Store.SavedKids(decode(slot.value.kidsJson).value))) &&
        kids.rows == (if ok then Store.SavedKids(decode(slot.value.kidsJson).value) else old(kids.rows))
    {
      if !Available(slot, now, DefaultSeconds) {
        return false;
      }
      var data := decode(slot.value.kidsJson);
      if data.NotArray? {
        return false;
      }
      ok := kids.SaveKids(data.value, dbFails);
    }

    /** `gb_clear_undo`: afterwards nothing can be undone and there is no label. */
    method Clear()
      modifies this
      ensures slot == None
      ensures forall now, seconds :: !Available(slot, now, seconds)
      ensures Label(slot) == ""
    {
      slot := None;
    }
  }

  /** The window: a snapshot taken at a positive time can be undone up to `seconds` later
      and not after; a wider window only keeps it longer. */
  lemma UndoWindow(kidsJson: string, caption: string, taken: int, now: int, seconds: int, wider: int)
    requires taken > 0 && seconds <= wider
    ensures Available(Some(Snapshot(taken, Some(caption), kidsJson)), now, seconds) <==> now - taken <= seconds
    ensures Available(Some(Snapshot(taken, Some(caption), kidsJson)), now, seconds) ==>
      Available(Some(Snapshot(taken, Some(caption), kidsJson)), now, wider)
  {
  }

  /** Undoing a snapshot of a saved kids table, within the window and with a store that
      does not fail, restores exactly that table; a table whose names were distinct
      passes the UNIQUE constraint again. */
  lemma UndoRestores(rows: seq<Store.KidRow>, kidsJson: string, decode: string -> Decoded<seq<Option<Store.RawKid>>>)
    requires forall i :: 0 <= i < |rows| ==> rows[i].name != [] && Trim(rows[i].name) == rows[i].name
    requires decode(kidsJson) == Arr(Store.ReloadedAll(rows))
    ensures Store.SavedKids(decode(kidsJson).value) == rows
    ensures Store.DistinctNames(rows) ==> Store.DistinctNames(Store.SavedKids(decode(kidsJson).value))
  {
    Store.ReloadedFixed(rows);
  }
}
