/** The legacy time and ladder helpers of lib/gb/utils.php. A stored expiry is given
    already parsed: `None` for an empty or unparseable value, else its timestamp. */
module LegacyUtils {
  import opened Common
  import Infractions

  /** `is_grounded_until`: grounded exactly while a parsed expiry lies in the future. */
  function IsGroundedUntil(until: Option<int>, now: int): (r: bool)
    ensures r <==> until.Some? && until.value > now
  {
    match until
    case None => false
    case Some(t) => t > now
  }

  /** `days_left`: whole days remaining, counting a started day as a full one. */
  function DaysLeft(until: Option<int>, now: int): (r: nat)
    ensures until.None? || until.value <= now ==> r == 0
    ensures until.Some? && until.value > now ==> r >= 1 && (r - 1) * 86400 < until.value - now <= r * 86400
  {
    if until.None? then 0
    else
      var sec := until.value - now;
      if sec <= 0 then 0 else (sec + 86399) / 86400
  }

  /** Still grounded iff at least one day, possibly partial, is left. */
  lemma GroundedIffDaysLeft(until: Option<int>, now: int)
    ensures IsGroundedUntil(until, now) <==> DaysLeft(until, now) > 0
  {
  }

  /** `add_seconds`: the parsed expiry, or now when there is none, moved by `sec`. */
  function AddSeconds(until: Option<int>, sec: int, now: int): (r: int)
    ensures until.Some? ==> r - sec == until.value
    ensures until.None? ==> r - sec == now
  {
    (if until.Some? then until.value else now) + sec
  }

  /** `set_days_from_now`: a negative day count counts as zero. */
  function SetDaysFromNow(days: int, now: int): (r: int)
    ensures r >= now
    ensures days >= 0 ==> r == now + days * 86400
    ensures days <= 0 ==> r == now
  {
    now + Max(0, days) * 86400
  }

  /** `clamp_int`: within the bounds when they are ordered; the lower bound wins otherwise. */
  function ClampInt(v: int, min: int, max: int): (r: int)
    ensures min <= max ==> min <= r <= max
    ensures min <= v <= max ==> r == v
    ensures min > max ==> r == min
  {
    Max(min, Min(max, v))
  }

  /** A legacy infraction entry; `ladder` is `None` when the entry has no array there. */
  datatype LegacyInf = LegacyInf(id: Option<string>, mode: Option<string>, days: int, ladder: Option<seq<int>>)

  /** The index the legacy `compute_days` takes for the next strike. */
  function LegacyIndex(priorStrikes: int, n: nat): (i: nat)
    requires n > 0
    ensures i < n
    ensures priorStrikes >= 0 && priorStrikes < n ==> i == priorStrikes
    ensures priorStrikes < 0 ==> i == 0
  {
    Min(Max(priorStrikes + 1, 1), n) - 1
  }

  /** The legacy `compute_days`: the rung for the next strike, capped at the last rung,
      or the default days; never negative. Non-positive rungs are not skipped. */
  function LegacyComputeDays(inf: LegacyInf, priorStrikes: int): (d: nat)
    ensures inf.ladder.None? || inf.ladder.value == [] ==> d == Max(0, inf.days)
    ensures inf.ladder.Some? && inf.ladder.value != [] ==>
      d == Max(0, inf.ladder.value[LegacyIndex(priorStrikes, |inf.ladder.value|)])
  {
    if inf.ladder.Some? && inf.ladder.value != [] then
      Max(0, inf.ladder.value[LegacyIndex(priorStrikes, |inf.ladder.value|)])
    else
      Max(0, inf.days)
  }

  /** On a ladder whose rungs are all positive, or without a ladder, the legacy rule and
      the engine's `gb2_inf_compute_days` give the same days for the strike that follows
      `priorStrikes` earlier ones. */
  lemma LegacyAgreesWithEngine(inf: LegacyInf, def: Infractions.DefRow, priorStrikes: int)
    requires def.days == inf.days
    requires inf.ladder.Some? ==> def.ladder == inf.ladder.value
    requires inf.ladder.None? ==> def.ladder == []
    requires forall i :: 0 <= i < |def.ladder| ==> def.ladder[i] > 0
    ensures LegacyComputeDays(inf, priorStrikes) == Infractions.ComputeDays(def, priorStrikes + 1)
  {
    PositivesSpec(def.ladder);
  }

  /** A ladder whose rung for the strike is not positive: the legacy rule gives 0 days,
      while the engine skips that rung. */
  lemma LegacyKeepsZeroRung()
    ensures LegacyComputeDays(LegacyInf(None, None, 5, Some([0, 3])), 0) == 0
    ensures Infractions.ComputeDays(Infractions.DefRow("", "", true, "set", 5, [0, 3], NotArray, [], 0, 0, 0), 1) == 3
  {
    assert Positives([0, 3]) == [3] by {
      assert [0, 3][1..] == [3];
      assert Positives([3]) == [3] by {
        assert [3][1..] == [];
      }
    }
  }

  function IdOf(inf: LegacyInf): string
  {
    if inf.id.Some? then inf.id.value else ""
  }

  /** `find_inf`: the first entry whose id (empty when absent) equals `id`. */
  function FindInf(infs: seq<LegacyInf>, id: string): (r: Option<LegacyInf>)
    ensures r.None? <==> forall i :: 0 <= i < |infs| ==> IdOf(infs[i]) != id
    ensures r.Some? ==> r.value in infs && IdOf(r.value) == id
  {
    if infs == [] then None
    else if IdOf(infs[0]) == id then Some(infs[0])
    else FindInf(infs[1..], id)
  }

  /** The entry found is the first match: no earlier entry has the id. */
  lemma {:induction false} FindInfFirst(infs: seq<LegacyInf>, id: string, k: nat)
    requires k < |infs| && IdOf(infs[k]) == id
    requires forall j :: 0 <= j < k ==> IdOf(infs[j]) != id
    ensures FindInf(infs, id) == Some(infs[k])
  {
    if k > 0 {
      FindInfFirst(infs[1..], id, k - 1);
    }
  }
}
