/** The parent dashboard's count of bonus chores still open to a kid, admin/family.php. */
module Family {
  import opened Common

  /** A row of the week's bonus list as the count reads it; each field is None when it is
      not set (missing or null), and the ids are after the int cast. */
  datatype BonusRow = BonusRow(kidId: Option<int>, kid: Option<int>, claimedByKidId: Option<int>,
                               claimedByKid: Option<int>, status: Option<string>)

  /** A row belongs to the kid unless its `kid_id`, or failing that its `kid`, names
      another kid. */
  predicate ForKid(kid: int, r: BonusRow)
  {
    !(r.kidId.Some? && r.kidId.value != kid) && !(r.kidId.None? && r.kid.Some? && r.kid.value != kid)
  }

  /** A row is open when nobody has claimed it or it says it is available. */
  predicate Open(r: BonusRow)
  {
    r.claimedByKidId == Some(0) || r.claimedByKid == Some(0) || r.status == Some("available")
  }

  /** Whether one entry adds to the count; entries that are not arrays (None) do not. */
  predicate Counted(kid: int, row: Option<BonusRow>)
  {
    row.Some? && ForKid(kid, row.value) && Open(row.value)
  }

  /** The number of counted entries. */
  function AvailableCount(kid: int, rows: seq<Option<BonusRow>>): (n: nat)
    ensures n <= |rows|
  {
    if rows == [] then 0
    else AvailableCount(kid, rows[..|rows| - 1]) + (if Counted(kid, rows[|rows| - 1]) then 1 else 0)
  }

  /** `bonus_available_count_for_kid`. */
  method BonusAvailableCount(kid: int, rows: seq<Option<BonusRow>>) returns (count: int)
    ensures count == AvailableCount(kid, rows)
  {
    count := 0;
    var i := 0;
    while i < |rows|
      invariant 0 <= i <= |rows|
      invariant count == AvailableCount(kid, rows[..i])
    {
      assert rows[..i + 1][..i] == rows[..i];
      var row := rows[i];
      if row.Some? {
        var r := row.value;
        var skip := (r.kidId.Some? && r.kidId.value != kid) || (r.kidId.None? && r.kid.Some? && r.kid.value != kid);
        if !skip {
          if r.claimedByKidId.Some? && r.claimedByKidId.value == 0 {
            count := count + 1;
          } else if r.claimedByKid.Some? && r.claimedByKid.value == 0 {
            count := count + 1;
          } else if r.status.Some? && r.status.value == "available" {
            count := count + 1;
          }
        }
      }
      i := i + 1;
    }
    assert rows[..|rows|] == rows;
  }

  /** The count over two lists joined is the sum of their counts. */
  lemma {:induction false} AvailableCountAppend(kid: int, a: seq<Option<BonusRow>>, b: seq<Option<BonusRow>>)
    ensures AvailableCount(kid, a + b) == AvailableCount(kid, a) + AvailableCount(kid, b)
  {
    if b == [] {
      assert a + b == a;
    } else {
      var n := |b| - 1;
      assert (a + b)[..|a + b| - 1] == a + b[..n];
      assert (a + b)[|a + b| - 1] == b[n];
      AvailableCountAppend(kid, a, b[..n]);
    }
  }

  /** The count is the number of positions holding a counted entry. */
  lemma {:induction false} AvailableCountPositions(kid: int, rows: seq<Option<BonusRow>>)
    ensures AvailableCount(kid, rows) == |set i | 0 <= i < |rows| && Counted(kid, rows[i])|
  {
    if rows != [] {
      var n := |rows| - 1;
      AvailableCountPositions(kid, rows[..n]);
      var before := set i | 0 <= i < n && Counted(kid, rows[..n][i]);
      var all := set i | 0 <= i < |rows| && Counted(kid, rows[i]);
      assert before == set i | 0 <= i < n && Counted(kid, rows[i]);
      if Counted(kid, rows[n]) {
        assert all == before + {n};
      } else {
        assert all == before;
      }
    }
  }

  /** Rows for other kids, or rows nobody can take, never change the count. */
  lemma NotCountedIgnored(kid: int, rows: seq<Option<BonusRow>>, extra: Option<BonusRow>)
    requires !Counted(kid, extra)
    ensures AvailableCount(kid, rows + [extra]) == AvailableCount(kid, rows)
  {
    assert (rows + [extra])[..|rows|] == rows;
  }
}
